# curlu, modelled and proved in Dafny

curlu is a small curl work-alike that can craft the TCP SYN and the TLS ClientHello it sends. This
project models the parts of it that keep state or transform data, and proves what they promise:

- the user-space TCP endpoint behind `--ja4t` (`Word32`, `Tcp`, `TcpInvariants`, `TcpRuns`, `TcpEffects`,
  `TcpEndpoint`), as a system of interleaved critical sections over a network that loses, repeats and
  reorders segments, and as the class whose methods are those sections;
- URL globbing (`Text`, `Decimal`, `Glob`, `GlobExpand`, `GlobPatterns`, `Targets`): the expansion loop
  computes the cartesian product that the pattern stands for;
- the JA4T fingerprint (`Ja4t`, `Ja4tWire`): text and wire round trips;
- the HTTP/1 session (`Readers`, `HeaderBlocks`, `Responses`, `Session`, `Request`, `RequestEffects`):
  header framing on any buffer, a stack of readers that loses no byte, connection reuse, and a request that
  cannot be broken up by the headers it is given;
- sharing a connect deadline (`Deadline`), the ClientHello edits (`ClientHello`) and the command line
  (`Arguments`, `ArgumentEffects`).

Code that changes state is modelled by methods and classes, each proved against a specification
function. Theorems about those functions say what they promise, and others, in literal names, numbers and
fields, what each of them does. What is outside the client (whether a packet goes out,
when a deadline passes, in which pieces bytes arrive, how long an attempt takes) is nondeterministic.
Sequence numbers are kept modulo 2^32 and related to unwrapped offsets.

## What the proofs show about the code

- A segment that overlaps bytes already taken is dropped and acknowledged again, not trimmed as section
  3.10.7.4 of RFC 9293 asks (`internal/curlu/tcpraw.go:233`). Safety does not suffer: received bytes are a
  prefix of the peer's stream in every run exactly when the stream and its FIN take fewer than 2^32
  sequence numbers. Beyond that a late copy of an old byte is taken for a new one.
- `validate` (`internal/curlu/ja4t.go:78-105`) asks for whole 32-bit words but sets no upper limit and
  accepts kinds behind an end-of-list. The kinds survive the wire exactly when the options are whole words
  and take at most 40 bytes; `1_8-8-8-8-8-8_00_00` is accepted and arrives without any option. MSS and scale
  survive exactly when they also do not stand only behind an end-of-list; `1_0-1-1-1-2_1460_00` is accepted
  and arrives without its MSS.
- When a reconnect fails, `conn` is nil when the deferred close calls its method
  (`internal/curlu/client.go:53` and `:69`). The model has an outcome of its own for this and shows that
  it occurs exactly then. A run whose answers need a further connection that cannot be opened has no other
  way out but a failed send or write before it gets there.
- `applyParrotALPN` appends a missing ALPN extension at the very end (`internal/curlu/utls.go:253-255`).
  If the ClientHello ends in padding or pre_shared_key, that end is lost exactly in this case.
- An argument that begins with `-` and contains a space is always split into words
  (`internal/curlu/options.go:360`), so a header attached as `-Hvalue` is read as that header if and only
  if the value contains no space. In `-HName: value` the value becomes a URL.
- A `{}` set or `[]` range ends at the first closing character; escapes count only outside. The Limits
  section of the repository's README still lists URL globbing as unsupported. The model follows the code.

## Model

| member | source | states |
|---|---|---|
| TcpRuns.ReceivedIsPrefix | internal/curlu/tcpraw.go:118-268 | In every run, bytes returned by Read followed by readBuf are a prefix of the peer's stream, rcvNxt is irs + 1 + their number (+ 1 for the FIN) mod 2^32, and the FIN is taken only behind the whole stream |
| TcpRuns.PrefixExactlyWhenStreamFits | internal/curlu/tcpraw.go:233-248 | The prefix property holds in all runs if and only if the stream length + 1 is less than 2^32 |
| TcpRuns.LongStreamOverruns | internal/curlu/tcpraw.go:233-248 | For every longer stream there is a run in which an old byte is taken for a new one |
| TcpRuns.WholeStreamCanArrive | internal/curlu/tcpraw.go:173-249 | For every stream there is a run that buffers all of it and takes its FIN |
| TcpRuns.WholeStreamIsRead | internal/curlu/tcpraw.go:173-268 | For every stream there is a run in which Read returns exactly that stream and then the end of file |
| TcpRuns.SentTilesAccepted | internal/curlu/tcpraw.go:118-317 | In every run the first packet is the SYN and no other is; the payloads that went out concatenate to exactly the bytes Write reported, each numbered right behind the data before it mod 2^32, 1 to MSS bytes each; one FIN at most, behind all data, with no attempt after it |
| TcpRuns.AcksAreHonest | internal/curlu/tcpraw.go:156-249 | Over every run the unwrapped acknowledgement numbers never decrease and never cover a byte neither buffered nor returned, or a FIN not taken |
| TcpRuns.EofMeansComplete | internal/curlu/tcpraw.go:176-268 | Without local Close, Read answers end of file only after all of the stream has been returned; any error it answers is the stored one; both are answered only at a moment of the run when the buffer is empty |
| TcpRuns.ErrorsComeAfterTheBytes | internal/curlu/tcpraw.go:254-267 | From any world on, an error or end of file is answered at a moment when nothing is buffered: all bytes taken by then have been returned before it |
| TcpRuns.ParkedReadersMustWait | internal/curlu/tcpraw.go:224-360 | A reader asleep with no wake-up pending has an empty buffer, no error, no FIN and no Close: no wake-up is lost |
| TcpRuns.ErrorAndCloseAreForever | internal/curlu/tcpraw.go:224-360 | From any point of any run, the first error is never replaced and a closed connection attempts no further packet |
| TcpRuns.RunKeepsSound | internal/curlu/tcpraw.go:173-360 | Every run keeps the invariant behind the theorems, from any world that satisfies it |
| TcpRuns.EventKeepsSound | internal/curlu/tcpraw.go:173-360 | Every critical section and channel operation keeps that invariant |
| TcpRuns.EventKeepsWakeups | internal/curlu/tcpraw.go:224-360 | No event leaves a sleeping reader without a reason to sleep or a wake-up |
| TcpRuns.HandleSegmentAnnounces | internal/curlu/tcpraw.go:224-249 | handleSegment broadcasts whenever it ends a reader's reason to wait |
| TcpRuns.EventKeepsHonesty | internal/curlu/tcpraw.go:251-268 | Every event keeps: end of file only behind the whole stream, errors only the stored one |
| TcpInvariants.AcceptedStartsAtEnd | internal/curlu/tcpraw.go:233-236 | A segment whose wrapped number equals rcvNxt starts exactly at the end of what has been taken, before the FIN |
| TcpInvariants.HandleSegmentKeepsReceiving | internal/curlu/tcpraw.go:224-249 | Whatever genuine segment arrives, taken bytes stay a prefix and rcvNxt stays their count mod 2^32 |
| TcpInvariants.NothingAfterFin | internal/curlu/tcpraw.go:233-248 | After the FIN no genuine segment adds a byte |
| TcpInvariants.ReadKeepsReceiving | internal/curlu/tcpraw.go:259-267 | Read moves bytes from the buffer to its caller without loss, copy or reordering |
| TcpInvariants.TiledSnoc | internal/curlu/tcpraw.go:282-311 | One more packet in its place behind a tiled log without a FIN leaves the log tiled |
| TcpInvariants.DataAttemptKeepsSends | internal/curlu/tcpraw.go:294-298 | A data segment that goes out lengthens the sent stream by its payload and moves sndNxt right behind it mod 2^32 |
| TcpInvariants.HandleSegmentKeepsAcks | internal/curlu/tcpraw.go:224-249 | Handling a segment keeps the acknowledgements ordered and honest |
| TcpInvariants.HandleSegmentKeepsSending | internal/curlu/tcpraw.go:224-249 | Handling a segment sends no data and leaves the client's stream tiled |
| TcpInvariants.WriteChunksKeepsSending | internal/curlu/tcpraw.go:282-300 | Whatever chunk fails, the sent stream grows by exactly the bytes Write reports |
| TcpInvariants.WriteChunksKeepsAcks | internal/curlu/tcpraw.go:282-300 | Data segments keep the acknowledgements ordered and honest |
| TcpInvariants.CloseKeepsSending | internal/curlu/tcpraw.go:303-311 | The FIN is tried once, behind all data |
| TcpInvariants.EstablishInitialises | internal/curlu/tcpraw.go:156-169 | The handshake leaves both directions at the start of their streams |
| TcpEffects.SegmentInPlaceIsAnswered | internal/curlu/tcpraw.go:237-248 | On an open connection a segment at rcvNxt puts its bytes behind the buffer, moves rcvNxt past bytes and FIN, and is answered by one pure ACK for the bytes and one for the FIN, the last acknowledging all that is taken; without both by nothing |
| TcpEffects.StraySegmentIsAnswered | internal/curlu/tcpraw.go:233-236 | Any other segment is dropped and answered by exactly one pure ACK that repeats rcvNxt |
| TcpEffects.ClosedIgnoresSegments | internal/curlu/tcpraw.go:227-229 | A closed connection does nothing with a segment |
| TcpEffects.EchoFollowsTimestamps | internal/curlu/tcpraw.go:230-232 | The echo becomes the big-endian value of the first timestamp option with four bytes, unless zero, even when the segment is dropped |
| TcpEffects.ReadTakesTheFront | internal/curlu/tcpraw.go:254-267 | Read returns exactly the smaller of its room and the buffer from the front and leaves the rest; on an empty buffer the error before the end of file; else it sleeps |
| TcpEffects.WriteSendsChunks | internal/curlu/tcpraw.go:270-301 | Stored error first, then closed; else attempt i carries bytes i times MSS on, the full MSS but for the last, numbered accordingly, up to the end or the chunk that fails; the count and error follow |
| TcpEffects.CloseSendsFin | internal/curlu/tcpraw.go:303-311 | One FIN, numbered sndNxt and without data, exactly on an open connection without error; closed afterwards, and all readers wake |
| TcpEffects.FailuresAreStored | internal/curlu/tcpraw.go:176-190 | A reset or socket failure is stored unless an error is stored already, and all readers wake |
| TcpEffects.HandshakeTakesSynAck | internal/curlu/tcpraw.go:156-169 | Only SYN, ACK and acknowledgement iss + 1 end the wait; both directions then start behind the SYNs, the MSS is that of the first MSS option with two bytes or 1460, and an ACK is attempted |
| TcpEffects.SynGoesFirst | internal/curlu/tcpraw.go:128-134 | In every run the first packet is a SYN numbered iss without ACK, FIN or data |
| TcpEffects.MSSStays | internal/curlu/tcpraw.go:284-287 | The MSS of the handshake holds for the whole run |
| TcpEndpoint.FindTimestampEcho | internal/curlu/tcpraw.go:453-460 | Returns the value of the first timestamp option with at least 4 data bytes, else 0 |
| TcpEndpoint.FindSynackMSS | internal/curlu/tcpraw.go:444-451 | Returns the value of the first MSS option with at least 2 data bytes, else 1460 |
| TcpEndpoint.WaitSynAck | internal/curlu/tcpraw.go:199-216 | Finds the first segment with SYN, ACK and acknowledgement iss + 1, or none when there is none |
| TcpEndpoint.Ja4tConn.Handshake | internal/curlu/tcpraw.go:118-171 | Establishes the connection from the first acceptable SYN-ACK; fails exactly when the SYN or the ACK does not go out or no SYN-ACK comes |
| TcpEndpoint.Ja4tConn.SendLocked | internal/curlu/tcpraw.go:368-375 | One attempt, numbered from the current state, changing nothing else |
| TcpEndpoint.Ja4tConn.HandleSegment | internal/curlu/tcpraw.go:224-249 | Leaves the state of the step system's segment event, and broadcasts exactly when it does |
| TcpEndpoint.Ja4tConn.Wait | internal/curlu/tcpraw.go:470-482 | Lets other goroutines run: error, FIN and Close stay once set, the packet log only grows |
| TcpEndpoint.Ja4tConn.Read | internal/curlu/tcpraw.go:251-268 | Answers only when the wait condition is false, from the state it then sees: bytes first, then the error, then end of file; when it need not wait it answers at once |
| TcpEndpoint.Ja4tConn.Write | internal/curlu/tcpraw.go:270-301 | The loop computes the chunked write of the step system for the chunk that fails, if any; an expired deadline, looked at after error and Close, sends nothing |
| TcpEndpoint.Ja4tConn.SendChunks | internal/curlu/tcpraw.go:283-300 | The loop of Write on its own |
| TcpEndpoint.Ja4tConn.SendChunk | internal/curlu/tcpraw.go:293-297 | One data segment; sndNxt moves behind it only when it goes out |
| TcpEndpoint.Ja4tConn.Close | internal/curlu/tcpraw.go:303-311 | Leaves the state of the step system's Close, and broadcasts |
| TcpEndpoint.Ja4tConn.Fail | internal/curlu/tcpraw.go:351-360 | Keeps the first error and broadcasts |
| TcpEndpoint.HandleSegmentInterferes | internal/curlu/tcpraw.go:224-249 | handleSegment does no more than a waiting Read allows for |
| TcpEndpoint.OtherSectionsInterfere | internal/curlu/tcpraw.go:251-360 | Nor do Write, Read, Close and fail |
| Word32.WrapInjective | internal/curlu/tcpraw.go:233 | Numbers less than 2^32 apart are equal when they wrap to the same word, which makes the comparison with rcvNxt exact |
| GlobExpand.ExpandGlob | internal/curlu/glob.go:16-81 | The buffered in-place loop computes the product of the pattern's pieces behind scheme and authority, or the first error it must report |
| GlobExpand.ExpansionSpellsDigits | internal/curlu/glob.go:16-81 | Result i of an expansion is scheme and authority followed by the items that the mixed-radix digits of i choose, rightmost pattern fastest |
| GlobExpand.ExpandRange | internal/curlu/glob.go:84-103 | Lists the padded numerals of the range, refusing bad bounds and more than 1000 |
| GlobExpand.Flush | internal/curlu/glob.go:26-31 | Puts the pending literal behind every string |
| GlobExpand.Multiply | internal/curlu/glob.go:60-71 | Every string so far with every item, items varying fastest |
| GlobExpand.ExpansionIsBounded | internal/curlu/glob.go:60-93 | A well-formed URL fails exactly when the product of all item counts exceeds 1000; a success has 1 to 1000 results, all with the pattern's scheme and authority |
| GlobExpand.TooManyAlready | internal/curlu/glob.go:60-71 | The early decision at a prefix is right for the whole pattern |
| GlobExpand.EscapedPathExpandsToItself | internal/curlu/glob.go:36-45 | Any path text can be written with escapes: it then expands to itself alone |
| GlobExpand.AddAlternatives | internal/curlu/glob.go:26-71 | Flushing the literal and multiplying by the items of a piece is one more factor of the product |
| GlobPatterns.URLExpands | internal/curlu/glob.go:17-24 | With a scheme free of "://", an authority free of `/` and `?`, and a path: refused exactly above 1000, else scheme and authority in front of the product of the path |
| GlobPatterns.NoSchemeNoGlob | internal/curlu/glob.go:17-22 | A text without "://" stands for itself |
| GlobPatterns.ParseOfWrite | internal/curlu/glob.go:32-78 | Any list of literals, sets and ranges, written with escapes, commas and padded bounds, is read as that list; excepted is only a backslash in front of a set or range |
| GlobPatterns.WrittenURLExpands | internal/curlu/glob.go:16-103 | Any URL written from pieces has one result per choice of items, at the place of that choice, or is refused when the counts multiply to more than 1000 |
| GlobPatterns.ItemsOfPiece | internal/curlu/glob.go:53-58 | A literal stands for its character, a set for its items in order, a range for its numbers in order and padded |
| GlobPatterns.TwoPatternsInOrder | internal/curlu/glob.go:64-70 | Of two patterns the left one varies slowly and the right one fast |
| GlobPatterns.RangeExactly | internal/curlu/glob.go:85-90 | A range is read if and only if it is two 32-bit numbers in ascending order around its first hyphen |
| GlobPatterns.BrokenURLIsRefused | internal/curlu/glob.go:46-75 | A pattern that breaks off behind some pieces is refused for too many strings when these are too many already, else for the break |
| GlobPatterns.BrokenPieces | internal/curlu/glob.go:46-49 | An opening bracket without its closing one, and a closing one alone, are unmatched |
| GlobPatterns.BrokenRange | internal/curlu/glob.go:88-90 | A bracketed text that is no range is a bad range |
| Glob.OutputSpellsDigits | internal/curlu/glob.go:60-79 | Output i spells the mixed-radix digits of i, rightmost pattern fastest |
| Glob.OutputAtRank | internal/curlu/glob.go:60-79 | Every choice of one item per pattern is output at the position its digits give |
| Glob.RankOfDigits | internal/curlu/glob.go:60-79 | The position given by the digits of i is i |
| Glob.DigitsOfRank | internal/curlu/glob.go:60-79 | The digits of a choice's position are that choice: no output position has two |
| Glob.ProductSnoc | internal/curlu/glob.go:60-71 | A product taken from the left, as the loop does, is the product taken from the right |
| Glob.EscapedTextIsLiteral | internal/curlu/glob.go:36-45 | Escaping and then reading gives back the text, backslashes included |
| Decimal.ParseOfFormat | internal/curlu/glob.go:84-103 | Printed numbers read back, up to the width's maximum |
| Decimal.ValueOfPad | internal/curlu/glob.go:95-102 | Zero padding does not change the number |
| Decimal.FormatOfNextDigit | internal/curlu/ja4t.go:112-124 | A digit more on the right is ten times the number and the digit |
| Text.SplitOfJoin | internal/curlu/ja4t.go:107-125 | Splitting undoes joining when no part contains the separator |
| Text.SpacesAre | internal/curlu/options.go:361 | White space by code point |
| Targets.ParseTargets | internal/curlu/client.go:94-123 | Returns all targets in order, or the exit code of the first trouble; success means one origin and 1 to 1000 targets, so targets[0] exists |
| Targets.CollectTargets | internal/curlu/client.go:95-112 | The loop over the arguments computes the collection |
| Targets.CollectionIsExactly | internal/curlu/client.go:95-112 | The targets are the parsed strings of all arguments in order, and exist exactly when every argument expands and every string parses |
| Targets.EveryArgumentYields | internal/curlu/client.go:116 | There are at least as many targets as arguments |
| Targets.PortSpellingDoesNotMatter | internal/curlu/client.go:125-133 | A port with leading zeros is the same port |
| Targets.PortsAre | internal/curlu/client.go:125-133 | 443 for https and 80 for http unless a port is given, which counts without leading zeros |
| Targets.URLAcceptedExactly | internal/curlu/client.go:171-191 | Accepted exactly: http or https, a host, no user, a port below 65536 if any; exit code 1 for another scheme, 3 otherwise |
| Targets.OneOriginMeans | internal/curlu/client.go:116-121 | One origin is equality of scheme, host and port throughout |
| Ja4t.ParseOfPrint | internal/curlu/ja4t.go:23-125 | Reading a printed fingerprint gives it back if it is valid, and the complaint about it if it is not |
| Ja4t.NormalisingIsIdempotent | internal/curlu/ja4t.go:23-125 | Reading then printing normalises every accepted text once and for all |
| Ja4t.Validate | internal/curlu/ja4t.go:78-105 | Reports the first complaint in the order of the checks; none exactly for a valid fingerprint |
| Ja4t.Complaint | internal/curlu/ja4t.go:78-105 | There is no complaint exactly when all kinds are supported, an MSS is given if and only if its kind is listed, a scale only with its kind, and the options are whole words |
| Ja4t.ParseKindsLoop | internal/curlu/ja4t.go:51-65 | The loop over the kinds reads all of them or reports the first bad one |
| Ja4t.ToText | internal/curlu/ja4t.go:107-125 | Prints the four sections |
| Ja4t.SectionsAreRead | internal/curlu/ja4t.go:23-76 | A text of four sections is read section by section, leading zeros and empty or `00` kinds included, and then judged as a whole |
| Ja4t.KindsAreRead | internal/curlu/ja4t.go:51-65 | Kinds between hyphens are read in order; an empty section and `00` are no kinds |
| Ja4t.FourSectionsOnly | internal/curlu/ja4t.go:23-28 | Any other number of sections is refused |
| Ja4t.PrintedSections | internal/curlu/ja4t.go:107-125 | The printed text, with `00` for nothing and an MSS of at least two digits |
| Ja4t.KindsAre | internal/curlu/ja4t.go:80-90 | The kinds 0, 1, 2, 3, 4 and 8 and no others, with their sizes |
| Ja4t.FirstFaultIsReported | internal/curlu/ja4t.go:78-105 | The first unknown kind, then MSS, scale and length faults |
| Ja4tWire.KindsSurviveExactlyWhen | internal/curlu/ja4t.go:78-176 | Kinds read from the SYN equal those asked for if and only if the options are whole words and take at most 40 bytes |
| Ja4tWire.FingerprintSurvivesExactlyWhen | internal/curlu/ja4t_test.go:91-133 | A listener reads a valid fingerprint back exactly, and prints the same text, if and only if its options take at most 40 bytes and neither its MSS nor a nonzero scale stands only behind the first end-of-list |
| Ja4tWire.ShortOptionsAreRead | internal/curlu/ja4t_test.go:91-133 | From options that fit, all kinds are read, and MSS and scale unless they stand only behind an end-of-list |
| Ja4tWire.MSSBehindTheEndIsLost | internal/curlu/ja4t_test.go:93-104 | The accepted fingerprint 1_0-1-1-1-2_1460_00 is read back without its MSS |
| Ja4tWire.ShortOptionsShow | internal/curlu/ja4t_test.go:108-133 | Options that fit show up completely, and every padding byte as one more kind |
| Ja4tWire.LongOptionsAreLost | internal/curlu/ja4t.go:98-104 | Options over 40 bytes lose at least one kind |
| Ja4tWire.SixTimestampsAreLost | internal/curlu/ja4t.go:98-104 | The accepted fingerprint 1_8-8-8-8-8-8_00_00 arrives without options |
| Ja4tWire.BuildOptions | internal/curlu/ja4t.go:127-140 | One option per kind in order; fails exactly for an unsupported kind or a length that is not a multiple of 4 |
| Ja4tWire.CountOptionBytes | internal/curlu/ja4t.go:165-176 | The count is the length of the encoding |
| Ja4tWire.OptionBytesAre | internal/curlu/ja4t.go:142-163 | The bytes of each option on the wire |
| Ja4tWire.WalkOfEncode | internal/curlu/ja4t_test.go:108-133 | Walking encoded options yields exactly those options and goes on behind them |
| Readers.Reader.Fetch | internal/curlu/client.go:389 | Reading through the replayed block and the reader below loses, repeats and reorders nothing |
| Readers.Reader.Read | internal/curlu/client.go:359 | Any piece returned and what remains make up what remained before |
| Readers.Reader.ReadSlice | internal/curlu/client.go:421-431 | A fragment up to a line break, a full buffer or the end, with nothing lost |
| HeaderBlocks.ReadHeaderBlock | internal/curlu/client.go:414-438 | For every buffer size and fragmentation: exactly the shortest prefix ending in a blank line, if it has at most 2^20 bytes, leaving exactly the rest; otherwise an error that is true of the stream |
| HeaderBlocks.SuccessIsDetermined | internal/curlu/client.go:414-438 | Success occurs if and only if the block exists within the limit, and then its result does not depend on fragmentation |
| HeaderBlocks.LastLineDecides | internal/curlu/client.go:432-436 | The test on the last line alone decides whether the block ends |
| Responses.ReadNextResponse | internal/curlu/client.go:384-395 | One header block, and a reader that stands exactly behind it |
| Responses.CopyBody | internal/curlu/client.go:358-371 | A body of known length is copied exactly, or the stream is shorter |
| Responses.CopyFinal | internal/curlu/client.go:352-372 | Header block when shown, body and reuse flag of the final response |
| Responses.ReadResponse | internal/curlu/client.go:324-374 | Skips interim responses, prints the final one, and returns a reader with exactly the bytes behind it; or the exit code of the refusal, which the stream determines unless it ends at exactly 2^20 bytes of header |
| Responses.ReplyToWire | internal/curlu/client.go:324-374 | One answer with any interim responses in front is printed exactly once and taken off the stream exactly |
| Responses.BlockDecides | internal/curlu/client.go:338-372 | Behind any blocks of status 100 to 199 but 101: a 101 is refused as an upgrade, a block without meaning is invalid, a body shorter than announced is partial, a body to the end of the stream is all of it and ends reuse, and any other leaves exactly what follows it |
| Responses.BehindInterim | internal/curlu/client.go:338-347 | Interim responses are shown or skipped and change nothing behind them |
| Responses.NoBlockIsRefused | internal/curlu/client.go:397-412 | With no complete block of at most 2^20 bytes the reply is empty, or its header is bad |
| Responses.ExitCodes | internal/curlu/client.go:348-372 | 52, 18, 8 and 56, each for its trouble |
| Session.Prepare | internal/curlu/client.go:63-75 | The old connection and reader when reuse is possible, else the old one closed and a new one of each; it fails exactly when a new one is needed and cannot be opened |
| Session.RoundTrip | internal/curlu/client.go:76-87 | One request and its whole response; on trouble the connection is closed, and the error is a failed send, a refusal by what remained in the reader, or a failed output |
| Session.OneTarget | internal/curlu/client.go:62-88 | One round of the loop plays exactly one response of what was still to be played, or says why it could not |
| Session.Execute | internal/curlu/client.go:49-89 | Every way out leaves all connections closed once; success has sent all requests in order and printed exactly the transcript; otherwise a send or write failed, or the run has no transcript for the reason reported; the nil connection is closed if and only if a reconnect failed, never with one target |
| Session.OneConnectionAtATime | internal/curlu/client.go:49-89 | Over a finished run never two connections are open, and each is closed exactly once |
| Session.DisciplineBounds | internal/curlu/client.go:49-75 | At any point at most one connection is open, and a connection no longer open has been closed once |
| Session.RunPrintsEveryAnswer | internal/curlu/client.go:60-89 | For any answers closing at any points, the run has a transcript if and only if 1 plus the closing answers before the last connections can be opened; it is then the concatenation of all answers, and otherwise the run ends at a reconnect |
| Request.ParseRequestHeaders | internal/curlu/client.go:198-213 | All headers or the first problem, with exactly the replaced defaults suppressed |
| Request.ParseRequestHeader | internal/curlu/client.go:257-274 | What goes on the wire is nonempty and has no CR, LF or NUL |
| RequestEffects.HeaderGoesOut | internal/curlu/client.go:257-274 | Name, colon and value go out as given, but for white space around the name; with only white space behind the colon nothing goes out |
| RequestEffects.HeadersRefused | internal/curlu/client.go:258-268 | Control characters, a missing name or colon, and a name that is no token are refused |
| RequestEffects.NamesAreTokens | internal/curlu/client.go:276-293 | Name characters are visible ASCII without delimiters |
| Request.SerializeHTTP1 | internal/curlu/client.go:223-243 | The request is the block of the intended lines |
| Request.SerializeHeaders | internal/curlu/client.go:235-240 | The lines of all headers not suppressed, in order |
| RequestEffects.RequestLinesAre | internal/curlu/client.go:223-243 | Request line, then Host, User-Agent and Accept unless a header of that name is given in any case, then the headers that are not suppressed |
| RequestEffects.PlainRequest | internal/curlu/client.go:223-243 | Without given headers the request is this literal text |
| RequestEffects.WireLinesInOrder | internal/curlu/client.go:235-240 | Headers go out in order, but for suppressed ones |
| RequestEffects.VersionIsShown | internal/curlu/client.go:295-306 | Visible ASCII stays, everything else is a hyphen, and no version is `dev` |
| Request.BlockIsHeaderBlock | internal/curlu/client.go:223-243 | Clean lines form one header block, with the only blank line at the end |
| Request.ReadLinesOfBlock | internal/curlu/client.go:223-243 | Reading the lines back gives the lines written |
| Request.RequestIsFramed | internal/curlu/client.go:198-306 | Whatever headers are accepted, none can end the request or add a line of its own |
| Request.RequestIsReadBack | internal/curlu/client.go:223-438 | readHeaderBlock takes a request within the limit off a stream exactly |
| Deadline.ConnectAll | internal/curlu/http3.go:103-119 | Every attempt has its equal share of the time left; budgets never decrease, each is at least an n-th of the total, the total is never exceeded; another attempt follows only one without answer that left time; connected holds exactly when the last attempt connected; it ends with an answer, the last address, or no time left |
| Deadline.NextShareExactly | internal/curlu/http3.go:141-149 | The next share is no smaller if and only if the attempt took at most its share and the remainder of the division |
| Deadline.OneMoreAttempt | internal/curlu/http3.go:103-119 | An attempt within its budget keeps the shares fair |
| ClientHello.Hello.ApplyParrotALPN | internal/curlu/utls.go:226-256 | Removes all ALPN extensions, or replaces the first protocol of the first one, or appends one; the handshake field follows |
| ClientHello.Hello.AppendParrotVersions | internal/curlu/utls.go:258-274 | Extends the first supported_versions extension and its handshake field, if there is one |
| ClientHello.Hello.AppendParrotExtensions | internal/curlu/utls.go:278-294 | Puts one empty extension per ID, in order, in front of the first that must stay last |
| ClientHello.Hello.Edit | internal/curlu/utls.go:128-133 | All edits in the order of the handshake |
| ClientHello.EditsKeepTheEnd | internal/curlu/utls.go:226-302 | The edits work in front, new extensions go behind that, and the end is untouched |
| ClientHello.EndIsKeptExactlyWhen | internal/curlu/utls.go:226-302 | What had to stay last still does, if and only if no ALPN extension had to be added to a ClientHello that has such an end |
| ClientHello.AddedALPNComesLast | internal/curlu/utls.go:253-255 | An added ALPN extension ends up behind padding and pre_shared_key |
| ClientHello.SurvivorsKeepTheirOrder | internal/curlu/utls.go:226-274 | All other extensions survive the ALPN and version edits, in order |
| ClientHello.EditedHolds | internal/curlu/utls.go:226-302 | After all edits: the ALPN lists are none, or have the given protocol in place of the first of the first list or in a list of its own; the first version list has grown at its end; all others stand in order with one empty extension per ID in front of those that must stay last |
| ClientHello.EditsStayInPlace | internal/curlu/utls.go:242-274 | Where no ALPN extension is added or removed, every extension keeps its place |
| Arguments.ParseArgs | internal/curlu/options.go:51-317 | The nested loops compute the left-to-right reading of the expanded arguments |
| Arguments.ShortOptions | internal/curlu/options.go:252-299 | The loop over a cluster reads its flags, and a value from the cluster or the next argument |
| Arguments.LongOption | internal/curlu/options.go:65-250 | A flag refuses a value; a key takes it from behind `=` or from the next argument |
| Arguments.OptionArgument | internal/curlu/options.go:341-349 | The given value, else the next argument, else an error |
| Arguments.ExpandCombinedFlags | internal/curlu/options.go:357-367 | The loop replaces every combined argument by its words |
| Arguments.NormalKeepsMeaning | internal/curlu/options.go:53-300 | Splitting clusters, detaching values and rewriting `--name=value` leaves options and success unchanged, for every list and whatever has been read before |
| Arguments.AcceptedBecomesPlain | internal/curlu/options.go:53-300 | The normal form of an accepted list has one option per argument and no attached value |
| Arguments.NormalIsIdempotent | internal/curlu/options.go:53-300 | Normalising twice changes nothing more |
| Arguments.HyphenMustStay | internal/curlu/options.go:252-299 | Behind any known flags a hyphen in a cluster is refused whatever follows, while the flags and then `--` end the options: it must not be split off |
| Arguments.ShortMeansLong | internal/curlu/options.go:65-299 | Every short option does what its documented long name does |
| Arguments.CombinedIsReadAsWords | internal/curlu/options.go:355-367 | A command line in one argument is read as its words |
| Arguments.ExpansionSettles | internal/curlu/options.go:357-367 | Expansion leaves a list alone exactly when nothing in it is combined, and is idempotent |
| Arguments.AttachedHeaderSurvivesExactlyWhen | internal/curlu/options.go:277-288 | `-Hvalue` is read as that header if and only if the value has no space, in every list whose other arguments are accepted beside it and whatever has been read before |
| Arguments.AttachedHeaderWithURL | internal/curlu/options.go:355-367 | The same for one header and one URL from the start |
| Arguments.AttachedHeaderIsSplit | internal/curlu/options.go:277-288 | With one space between two words, the first word is the header and the second becomes a URL |
| Arguments.SpacesSeparate | internal/curlu/options.go:357-367 | Any white space separates words, and as much of it as there is |
| ArgumentEffects.LongFlagsSet | internal/curlu/options.go:68-94 | --include, --silent, --show-error, --verbose, --insecure, --globoff, --help and --version each set their flag and nothing else |
| ArgumentEffects.UTLSFlagsSet | internal/curlu/options.go:165-184 | So do the four uTLS flags |
| ArgumentEffects.ProtocolFlagsSet | internal/curlu/options.go:207-226 | So do the HTTP/2 and both HTTP/3 flags, and --ipv4 and --ipv6 set the family |
| ArgumentEffects.LongValuesSet | internal/curlu/options.go:73-120 | --header, --connect-timeout, --max-time, --resolve and --ja4t put their value, attached or next, into their field and no other; refused without a value or when it is not accepted |
| ArgumentEffects.UTLSListsSet | internal/curlu/options.go:132-164 | So do --utls-cipher-append, --utls-version-append and --utls-ext-append |
| ArgumentEffects.UTLSValuesSet | internal/curlu/options.go:121-195 | So do --utls-hello and --utls-alpn-hex |
| ArgumentEffects.FlagTakesNoValue | internal/curlu/options.go:69-71 | A flag with a value is refused |
| ArgumentEffects.OtherNamesAreRefused | internal/curlu/options.go:247-248 | Any other long name is refused |
| ArgumentEffects.ShortFlagsSet | internal/curlu/options.go:256-276 | Each short flag at the head of a cluster sets its flag or family, and the rest is read as a cluster |
| ArgumentEffects.ShortValuesSet | internal/curlu/options.go:277-295 | -H and -m put the rest of the cluster, or the next argument, into headers and maximum time |
| ArgumentEffects.OtherCharactersAreRefused | internal/curlu/options.go:296-297 | Any other character in a cluster is refused |
| ArgumentEffects.URLsAreRead | internal/curlu/options.go:57-60 | URLs are kept in order |
| ArgumentEffects.AllBehindDashesAreURLs | internal/curlu/options.go:61-64 | Behind `--` everything is a URL |
| ArgumentEffects.ListEnds | internal/curlu/options.go:301-316 | At the end the options are refused exactly for the five contradictions |
| ArgumentEffects.AcceptedOptionsAgree | internal/curlu/options.go:301-316 | No accepted list, however long, leaves options that contradict each other |
| ArgumentEffects.TimeoutsGoTheirWay | internal/curlu/options.go:95-109 | A timeout and URLs set exactly that timeout and those URLs |
| ArgumentEffects.LastValueWins | internal/curlu/options.go:95-109 | Of several values of --connect-timeout, --max-time or --ja4t the last counts |
| ArgumentEffects.LastUTLSValueWins | internal/curlu/options.go:121-195 | So of --utls-hello and --utls-alpn-hex |
| ArgumentEffects.HeadersKeepTheirOrder | internal/curlu/options.go:73-79 | Repeated headers are all kept, in order |
| ArgumentEffects.ResolvesKeepTheirOrder | internal/curlu/options.go:110-120 | So are repeated --resolve entries |

## Left out

- TcpEndpoint.Ja4tConn.Read: sleeps at most `patience` times per call, where the source may sleep without end; a call still asleep is the answer None. The step system in TcpRuns has no such bound.
- TcpEndpoint.Ja4tConn.Handshake: the source also fails when random numbers or option serialisation fail; the segments seen are those that arrive before the channel closes or the context ends. That pump may store an error meanwhile is in the step system of TcpRuns only.
- TcpEndpoint.Ja4tConn.Wait: when a deadline expires is arbitrary, because clocks and timers are not modelled.
- TcpEndpoint.Ja4tConn.Write: a send that fails returns one error value; which error it was is not kept.
- TcpRuns.ParkedReadersMustWait: deadline timers and SetDeadline appear only as broadcasts that may come at any time; that an expired deadline wakes its reader is not claimed.
- Arguments.ParseArgs: the partly filled options returned beside an error, and the text of errors, are not kept; whether a value is acceptable (durations, host mappings, hexadecimal IDs, ClientHello names, fingerprints) is an open predicate per option.
- Session.Execute: timeouts and the operation context appear only as failures that may happen at any send; the HTTP/2 and HTTP/3 branches are not modelled.
- Session.Execute: which exit code a first connection that fails gives is arbitrary, because dialing and the TLS handshake are not modelled.
- Session.RoundTrip: which of the codes 28 and 55 a failed send gives is arbitrary, because clocks are not modelled.
- Responses.ReadResponse: receive errors other than the end of the stream, and so exit code 28, are not modelled.
- Deadline.ConnectAll: the case without a deadline, and how far an attempt can overrun its budget, are not modelled.
- Targets.ParseTargets: url.Parse is an open function, and host names are taken as already case-folded.
- The HTTP library (http.ReadResponse) is taken to consume one header block, as readHeaderBlock delimits it, and then a body of known length or up to the end of the stream. What a header block means is an open function; chunked bodies are not modelled.
- The packet library is taken to pad options with zero bytes and to keep the low four bits of the header length, and when reading to end its list of options at the first end-of-list. Where a length does not fit, it refuses the packet; the model reads the options before it, which are never all of them. IP headers, identifiers, checksums and the parsing of raw packets are left out.
- Liveness: nothing is claimed about a packet ever being delivered, a channel ever draining, or a goroutine ever ending.
- Strings stand for the byte sequences or texts of the source; invalid UTF-8 in arguments to strings.Fields and strings.Map is not considered.
- Two entries of the extension list that are one object (aliasing) do not occur in the ClientHello model: extensions are values in a list that the methods update.
- lookupResolve, checkTransportOptions, requestHost, countNonGREASE and isGREASE would only add short case splits.
- Raw sockets, routes and namespaces, TLS, QUIC, HTTP/2 and HTTP/3, certificates, tracing, help texts, the ClientHello catalogue and the build are not part of this model.
