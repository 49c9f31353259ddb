# Divoom control: verified models

Dafny models of the parts of this repository where a small mistake is hardest to see, with proofs
of what those parts promise. `dafny verify dfyconfig.toml` checks everything. Nothing is executed:
the models stand beside the Python sources and state, for all inputs and all runs, what the code
does.

**Receive-side framing** (`Framing`, `FramingTheorems`, `FramingRemainders`, `FramingCodec`, `SppReceiver`,
`SppTheorems`).
The Basic protocol parser deletes from a byte buffer in a loop, looking for a start byte, a bounded
length, an end byte and a 16-bit sum, and drops one byte when a candidate fails. `Framing.Decide` says
what the bytes at one stream position mean on their own: skip, wait, or a frame. The loop is proved to be
the walk over those verdicts, and everything else is proved about the walk: independence of chunking, the
exact set of frames found, bounded delay, round trips, error detection. The RFCOMM receiver puts a second
framing (iOS-LE) on the same buffer.

**Scope analysis** (`PythonSyntax`, `NameResolution`, `UndefinedNames`, `UndefinedNamesFinder`,
`UndefinedNamesReads`, `UndefinedNamesBindings`, `UndefinedNamesTheorems`, `UndefinedNamesLimits`).
`NameResolution` defines, without looking at the analyser, which names a module reads in which blocks, and which
of them resolve under sections 4.2.1 and 4.2.2 of the Python Language Reference. The analyser's scope objects and
walk are classes; a run is proved to produce exactly the flagged uses, the uses are proved to be exactly the reads
it can look at, and a flagged one is proved not to resolve.

**Glyphs** (`Bits`, `Glyphs`, `GlyphTheorems`, `HalvingTheorems`): unpacking, rotating, packing and halving
16x16 bitmaps. **Line streams** (`Ndjson`, `NdjsonTheorems`,
`NdjsonReplies`): newline-delimited messages under a buffer cap.

**Process protocols**, as step systems over every interleaving, with the calls themselves as methods:
the single-instance lock (`SingleInstance`), helper identities under pid reuse (`HelperIdentity`), the
choice of a binary and the version guard (`BinaryResolver`, `DaemonGuard`), respawn detection
(`PanelRelink`) and pid steering (`RecycledPid`).

**Source gates** (`RustSource`, `BoundedWrites`): comment blanking, brace matching and the audit built on them.

Where the code does not do what its own text says, the models follow the code, and the difference is a theorem:

- A plain command 4 can be read back as an ACK, even through its checksum byte
  (`divoom_lib/framing.py:83`): `FramingCodec.OneFrameRoundTrip` gives the exact condition.
- Remainders can depend on chunking although messages do not: `FramingRemainders.FeedRemainder` says exactly when.
- An iOS-LE frame that follows a Basic frame, or a damaged iOS-LE frame, can be lost: `SppTheorems.DeliveryExactness`
  and `SppTheorems.DamagedDelivery`.
- The analyser says that unevaluated annotations are not looked at (`tools/_undefined_names.py:163-166`), but
  names in their lambdas and comprehensions are reported: `UndefinedNamesLimits.QuotedNameReported`.
- It says that its lookup honours that a method cannot see class attributes as bare names (`tools/_undefined_names.py:69-73`),
  but such a use is never reported: `UndefinedNamesLimits.BareClassAttributeMissed`.
- A one-shot reply can depend on chunking when the first line is not a message but one read together with it is:
  `NdjsonReplies.ReplyExactness` gives the exact condition.
- Outside the dev tree the version guard can restart for ever: `DaemonGuard.RestartLoopExactly`.
- A current daemon is told to stop when it answers the probe but not the next query:
  `DaemonGuard.CurrentDaemonTold`.
- A respawn can go unnoticed below four seconds: `PanelRelink.RespawnDetected`.

## Model

| member | source | states |
|---|---|---|
| Framing.ParseBasicProtocolFrames | divoom_lib/framing.py:101-148 | The in-place loop returns exactly the messages of the position-by-position walk, and leaves in the buffer exactly the bytes behind the walk's stopping point |
| Framing.Decide | divoom_lib/framing.py:114-142 | A frame is taken only at a start byte, is whole and has 7 to 8192 bytes; anything but a start byte is skipped |
| FramingTheorems.ChunkingInvariance | divoom_lib/framing.py:101-148 | For every stream and every way of cutting it, the messages found by re-feeding the remainder are those of one call on the whole stream |
| FramingTheorems.MessagesContinue | divoom_lib/framing.py:101-148 | Messages of a longer stream are the messages so far followed by those of the remainder plus the new bytes |
| FramingRemainders.RemainderAgrees | divoom_lib/framing.py:104-130 | Parsing what was kept plus a chunk keeps what parsing everything at once keeps, if and only if there are seven bytes to look at, or the earlier loop ended by its guard, or the bytes are none or an unfinished start of a frame of possible length |
| FramingRemainders.FeedRemainder | divoom_lib/framing.py:101-148 | For every stream and every way of cutting it, the bytes kept at the end are those of one call on the whole stream if and only if the last call that entered the loop left it by its guard, or the kept bytes are none or an unfinished start of a frame of possible length |
| FramingRemainders.SettleAgrees | divoom_lib/framing.py:104-130 | With at least seven bytes ahead, the parser stops at the same place wherever on its path it was started |
| FramingRemainders.RemaindersDiffer | divoom_lib/framing.py:104-109 | A stream of junk as a witness that the condition can fail |
| FramingTheorems.DecideStable | divoom_lib/framing.py:117-142 | A verdict once given is never changed by bytes that arrive later |
| FramingTheorems.SettleBound | divoom_lib/framing.py:117-130 | Fewer than 8192 bytes are ever kept |
| FramingTheorems.BoundedDelay | divoom_lib/framing.py:117-130 | Once 8192 bytes from position p on have arrived, p is behind the parser, and which frames start at or before p is the same in every longer stream |
| FramingTheorems.EmitIffValid | divoom_lib/framing.py:77-98 | The verdict is a frame of a given size if and only if the wire format's conditions (start, length, bound, end, sum) hold there |
| FramingTheorems.GreedyFrom | divoom_lib/framing.py:101-148 | From any position reached, up to any position where the walk ends, the frames found are the one leftmost cover of the bytes between |
| FramingTheorems.GreedyExactness | divoom_lib/framing.py:101-148 | A list of frames is the parser's if and only if it is the leftmost cover of the consumed bytes: valid frames in order, without overlap, every other valid frame starting inside a listed one |
| FramingCodec.OneFrameRoundTrip | divoom_lib/framing.py:77-98 | An encoded command is a valid frame, and reads back as itself if and only if it is not a plain command 4 that shows the ACK byte at index 5 (second payload byte 0x55, or the single payload byte 0x4D) |
| FramingCodec.PlainFourIndexFive | divoom_lib/framing.py:83 | What stands at index 5 of a plain command 4: zero, the low checksum byte, or the second payload byte |
| FramingCodec.RoundTrip | divoom_lib/framing.py:101-148 | A concatenation of encoded commands is consumed to the last byte and yields the commands sent if and only if none of them looks like an ACK |
| FramingCodec.SingleByteErrors | divoom_lib/framing.py:80-96 | Changing one byte of an accepted message makes it rejected, at any length, unless it is the start byte, which the validator does not read |
| SppReceiver.Receiver.TakeIosLeFrames | divoom_lib/bt_spp_rfcomm.py:158-183 | The iOS-LE loop takes exactly the frames at the front, dropping one byte at a bad length or a failed parse, and stops only where it can do nothing more |
| SppReceiver.Receiver.TakeBasicFrames | divoom_lib/bt_spp_rfcomm.py:187-193 | The Basic half queues the parser's messages in order and keeps the parser's remainder in a fresh buffer |
| SppReceiver.Receiver.OnData | divoom_lib/bt_spp_rfcomm.py:156-193 | One delivery: what is queued and what is kept, as a function of the old buffer and the chunk |
| SppReceiver.FromBasicsExactly | divoom_lib/bt_spp_rfcomm.py:190-193 | Each parsed message is queued, in order, with its own command and payload, the Basic framing, packet number 0 and no raw bytes |
| SppTheorems.BasicFrameRead | divoom_lib/framing.py:83-98 | What the notification of a whole Basic frame carries, by the frame's bytes |
| SppTheorems.IosLeParsesIff | divoom_lib/framing.py:44-64 | The iOS-LE reader accepts exactly the data of at least 11 bytes with header and end byte, and reads packet number, command, payload and checksum from their places |
| SppTheorems.CommandsDelivered | divoom_lib/bt_spp_rfcomm.py:156-193 | Encoded commands arrive under every chunking with their own ids and payloads, in order, if and only if none looks like an ACK; the buffer ends empty in any case |
| SppTheorems.BoundedBuffer | divoom_lib/bt_spp_rfcomm.py:162-188 | After any input at most 8191 bytes are kept, and behind an iOS-LE header the receiver waits only for a frame of possible length |
| SppTheorems.DeliveryExactness | divoom_lib/bt_spp_rfcomm.py:156-193 | A stream of whole frames is queued exactly, in order and with an empty buffer at the end, under every chunking, if and only if no iOS-LE frame follows a Basic one |
| SppTheorems.SingleFramingDelivery | divoom_lib/bt_spp_rfcomm.py:156-193 | Streams of one framing are delivered exactly, however they are cut |
| SppTheorems.NoIosLeBehindBasic | divoom_lib/bt_spp_rfcomm.py:158-193 | Of any whole frames that arrive together, those before the first Basic one are delivered in order, and nothing behind it is delivered as iOS-LE |
| SppTheorems.OutOfOrderLost | divoom_lib/bt_spp_rfcomm.py:184-193 | An iOS-LE frame behind a Basic one is lost when all arrives in one chunk: one was due, and no iOS-LE notification comes |
| SppTheorems.DamagedHeader | divoom_lib/bt_spp_rfcomm.py:164-177 | A bad length or a failed parse behind an iOS-LE header sends the whole rest of the delivery to the Basic parser, so that it yields no iOS-LE notification |
| SppTheorems.DamagedDelivery | divoom_lib/bt_spp_rfcomm.py:158-193 | Of whole iOS-LE frames with damage behind them, exactly those frames arrive as iOS-LE, and none behind the damage, however sound |
| SppTheorems.WholeIosLeDrained | divoom_lib/framing.py:34-64 | A whole iOS-LE frame at the front becomes one notification with its command, payload and packet number; its checksum is not looked at |
| SppTheorems.HeaderlessStreams | divoom_lib/bt_spp_rfcomm.py:184-193 | Any bytes in which the iOS-LE header does not occur, noise included, are read as a Basic stream under every chunking |
| UndefinedNamesFinder.Scope.DefinesName | tools/_undefined_names.py:66-82 | Walking the parent links answers whether the name is bound in the scope or an enclosing one, class scopes passed over except for lookups from a class |
| UndefinedNamesFinder.Finder.Collect | tools/_undefined_names.py:183-199 | What a scope and the module's scope hold after the pre-pass over a body, declarations in order |
| UndefinedNamesFinder.Finder.Check | tools/_undefined_names.py:246-253 | A use is listed exactly when it is flagged and its pair is not listed yet |
| UndefinedNamesFinder.Finder.Expression | tools/_undefined_names.py:255-280 | The walk of an expression lists the flagged ones of its uses in order; in which scope each use stands is what `UndefinedNamesReads` settles |
| UndefinedNamesFinder.Finder.Comprehend | tools/_undefined_names.py:282-302 | The first iterable belongs to the enclosing scope; a target is visible from its own clause on |
| UndefinedNamesFinder.Finder.Statement | tools/_undefined_names.py:305-366 | The walk of a statement reports its uses in order and leaves the module's scope with the names declared global inside it |
| UndefinedNamesFinder.Finder.Run | tools/_undefined_names.py:170-180 | The problems of a whole run are the flagged uses of the module, each pair once, in the order of the walk |
| UndefinedNamesReads.ExprLooked | tools/_undefined_names.py:255-302 | The uses of an expression are exactly its reads by the language's rule, each in the block it is evaluated in: a lambda's result with its parameters, a comprehension clause by clause |
| UndefinedNamesReads.StatementLooked | tools/_undefined_names.py:305-366 | The uses of a statement are exactly its reads: decorators, defaults and bases outside the new block, bodies inside |
| UndefinedNamesReads.UsesExactly | tools/_undefined_names.py:170-180 | The walk looks at exactly the reads of the module, in their blocks, except those in places it never visits and those directly in unevaluated annotations |
| UndefinedNamesReads.LazyExactly | tools/_undefined_names.py:171-176 | Annotations count as strings if and only if a top-level statement imports `annotations` from `__future__` |
| UndefinedNamesBindings.StatementWithin | tools/_undefined_names.py:201-243 | The pre-pass finds every name that a statement binds by Python's rule, and every name bound in the module's namespace from below through `global` |
| UndefinedNamesBindings.BoundExactly | tools/_undefined_names.py:201-243 | A name counts as bound in a block if and only if some statement in it, at any depth and in nested functions and classes too, binds it or assigns to an attribute or subscript that starts from it |
| UndefinedNamesBindings.TargetNamesExactly | tools/_undefined_names.py:85-99 | The names taken from a target are those it binds and those its attributes and subscripts start from |
| UndefinedNamesBindings.ArgNamesExactly | tools/_undefined_names.py:130-137 | A signature binds its named parameters and those behind `*` and `**` |
| UndefinedNamesBindings.AliasNamesExactly | tools/_undefined_names.py:214-216 | An import binds the alias, or else the part of the name before its first dot |
| UndefinedNamesBindings.FirstComponentExactly | tools/_undefined_names.py:216 | What that part is |
| UndefinedNamesBindings.NestedDeclaredExactly | tools/_undefined_names.py:189-196 | A nested scope keeps the names that no `global` or `nonlocal` directly in its body names |
| UndefinedNamesBindings.ModuleDeclaredExactly | tools/_undefined_names.py:189-196 | In the module's scope the last such declaration of a name decides |
| UndefinedNamesBindings.EnteredExactly | tools/_undefined_names.py:190-193 | The names nested bodies add to the module are those of `global` statements directly in a function's or class's body |
| UndefinedNamesBindings.TargetWithin | tools/_undefined_names.py:85-99 | The names taken from a target include all that it binds |
| UndefinedNamesTheorems.DefinesExactly | tools/_undefined_names.py:66-82 | Inside a module, a lookup succeeds if and only if the name is bound by some statement of the module, was declared global, or is a visible parameter or comprehension target |
| UndefinedNamesTheorems.ReportedExactly | tools/_undefined_names.py:246-253 | A pair is reported if and only if some use of it is no builtin, bound by no statement anywhere, declared global in no body entered before, and no visible parameter or target |
| UndefinedNamesTheorems.ReportDistinct | tools/_undefined_names.py:249-253 | No pair is reported twice |
| UndefinedNamesTheorems.ReportedReads | tools/_undefined_names.py:246-366 | Reported pairs are reads of names bound nowhere in the module, declared global neither by it nor by a body around them, and no visible local; every such read is reported, unless a function or class somewhere declares its name global |
| UndefinedNamesTheorems.NoFalseAlarm | tools/_undefined_names.py:246-366 | Every reported pair is a name the module reads, by the language's own account of what is read in which block, and it resolves there to no binding under section 4.2.2 of the Python Language Reference |
| UndefinedNamesLimits.AnnotationUses | tools/_undefined_names.py:255-280 | In an unevaluated annotation exactly the names inside its outermost lambdas and comprehensions are looked at |
| UndefinedNamesLimits.QuotedNameReported | tools/_undefined_names.py:163-167 | A module all of whose uses are unevaluated, and which is nevertheless reported |
| UndefinedNamesLimits.BareClassAttributeMissed | tools/_undefined_names.py:229-232 | A method's bare use of its class's attribute resolves to nothing and is never reported |
| Glyphs.PackUpright | scripts/extract_apk_font.py:92-102 | The output is two bytes a row, high byte first, of the numbers the rows write in binary |
| Glyphs.PackRow | scripts/extract_apk_font.py:96-99 | Setting bits one by one yields the number whose binary digits the row's pixels are |
| Glyphs.CountBlock | scripts/extract_apk_font.py:82-87 | The nested loops count the lit pixels of one 2x2 block inside the box |
| Glyphs.Halve | scripts/extract_apk_font.py:59-89 | The result is the halving of the glyph's bounding box by blocks with at least two lit pixels, blank for a blank glyph |
| Glyphs.BoxFound | scripts/extract_apk_font.py:73-78 | First and last lit row and column are the bounding box of the lit pixels; no lit row means a blank glyph |
| Glyphs.Extract | scripts/extract_apk_font.py:105-118 | Fails exactly when the blob is too short; otherwise each printable code point has its cell, blank for the space, else the packed, decoded and possibly halved glyph |
| GlyphTheorems.FourTurns | scripts/extract_apk_font.py:56 | The decoding's rotation is a quarter turn: four of them are the identity |
| GlyphTheorems.UnpackPacked | scripts/extract_apk_font.py:92-102 | Reading packed bytes back gives the same matrix |
| GlyphTheorems.PackUnpacked | scripts/extract_apk_font.py:92-102 | Packing what was read from 32 bytes gives the same bytes |
| GlyphTheorems.DecodeBijection | scripts/extract_apk_font.py:45-56 | Every upright glyph is the decoding of exactly one stored glyph |
| GlyphTheorems.ExtractedBit | scripts/extract_apk_font.py:45-118 | Bit x of row r of a glyph's output cell is bit r, from the low end, of row x of the stored glyph |
| HalvingTheorems.DownsamplingBound | scripts/extract_apk_font.py:59-89 | Halving lights at most half as many pixels as its input has, all in the top-left 8x8 quarter |
| HalvingTheorems.HalvedUnique | scripts/extract_apk_font.py:59-89 | The result depends on the glyph alone |
| HalvingTheorems.HalvedExactly | scripts/extract_apk_font.py:80-88 | A pixel of the half-size glyph is lit if and only if at least two different lit pixels of the glyph lie in its 2x2 block of the bounding box |
| HalvingTheorems.BlankHalved | scripts/extract_apk_font.py:76-77 | A blank glyph stays blank |
| HalvingTheorems.TranslationInvariance | scripts/extract_apk_font.py:73-89 | Moving a glyph inside its cell does not change its halved form |
| Ndjson.IterMessages | divoom_client/daemon_protocol.py:71-87 | The messages are the decodable non-blank lines in order, the remainder is what follows the last newline |
| Ndjson.Subscribe | divoom_client/daemon_protocol.py:467-493 | Outcome and delivered events, turn by turn: stop request, timeout, close, error, cap or data |
| Ndjson.ReadReply | divoom_client/daemon_protocol.py:209-220 | The read loop of a request: first message of what was read up to a newline, the end or the cap |
| NdjsonTheorems.SplitExactly | divoom_client/daemon_protocol.py:78 | Lines and remainder are the one way to cut a buffer into newline-free pieces that give it back |
| NdjsonTheorems.StripExactly | divoom_client/daemon_protocol.py:80 | Stripping removes exactly the white space at both ends of a line |
| NdjsonTheorems.LineMessageExactly | divoom_client/daemon_protocol.py:79-86 | A line carries a message if and only if what is left between the white space at its ends is non-empty and decodes to it |
| NdjsonTheorems.LinesAppend | divoom_client/daemon_protocol.py:78 | Bytes that arrive later only continue the unfinished line |
| NdjsonTheorems.TailHasNoNewline | divoom_client/daemon_protocol.py:489 | The kept buffer never holds a newline |
| NdjsonTheorems.EventExactness | divoom_client/daemon_protocol.py:473-491 | Unless the cap ends it, a subscription delivers the messages of the whole received stream in order, under every chunking |
| NdjsonTheorems.OutcomeExactly | divoom_client/daemon_protocol.py:474-493 | The cap aside, a subscription goes on until the first turn that ends it, and answers unreachable if and only if that turn is a socket failure |
| NdjsonTheorems.CapExactly | divoom_client/daemon_protocol.py:483-488 | The cap fires if and only if some chunk does not fit beside the line that is unfinished when it comes |
| NdjsonTheorems.CapNeverFires | divoom_client/daemon_protocol.py:478-488 | It never fires when chunks have at most 4096 bytes and lines leave that much room |
| NdjsonTheorems.RoundTrip | divoom_client/daemon_protocol.py:66-87 | Encoded messages come back in order and leave an empty remainder |
| NdjsonTheorems.EventsDelivered | divoom_client/daemon_protocol.py:467-491 | The events a daemon encodes are the events delivered, however the socket cuts them |
| NdjsonReplies.ReplyExactness | divoom_client/daemon_protocol.py:209-218 | All ways of cutting a stream give the same reply if and only if: it has no newline, or the first one lies behind the cap, or every read fits below the cap and either the first line is a message or no line readable up to one chunk behind the newline is |
| NdjsonReplies.OneReplyAlways | divoom_client/daemon_protocol.py:209-218 | What that one reply is: too long, none, or the message of the first line |
| NdjsonReplies.ReadsPastNewline | divoom_client/daemon_protocol.py:210-216 | The read loop stops with the first newline in its buffer and less than a chunk behind it, or at the cap |
| NdjsonReplies.TwoReplies | divoom_client/daemon_protocol.py:210-218 | Of any other stream, two chunkings with different replies |
| NdjsonReplies.ReplyIsFirstLine | divoom_client/daemon_protocol.py:209-218 | When the first line is a message, it is the reply under every chunking |
| NdjsonReplies.ReplyEnds | divoom_client/daemon_protocol.py:210-220 | Before any newline, a failure or timeout gives the socket's error, the end of the stream no reply |
| NdjsonReplies.ReplyDependsOnChunking | divoom_client/daemon_protocol.py:210-218 | A family of such streams: a message behind a blank or malformed first line is found in the same chunk and missed in the next |
| SingleInstance.TextRoundTrip | divoom_gui/single_instance.py:72-85 | The pid that was written is the pid that is read |
| SingleInstance.StepKeepsInv | divoom_gui/single_instance.py:57-77 | Every step of every process keeps: past the lock attempt exactly when it holds the lock, and the file is what the holder made it |
| SingleInstance.MutualExclusionAndTruth | divoom_gui/single_instance.py:44-87 | Over every interleaving of starters, losers, failures and deaths, at most one process has been told it is the instance, and until it dies every read returns its pid |
| SingleInstance.LosersChangeNothing | divoom_gui/single_instance.py:49-69 | A process without the lock never changes an existing file, and a failed attempt changes neither file nor lock |
| SingleInstance.TurnedAwayOnlyByTheLiving | divoom_gui/single_instance.py:65-69 | A process is turned away if and only if another live process holds the lock |
| SingleInstance.UntruncatedPidIsWrong | divoom_gui/single_instance.py:70-72 | Without the truncation a longer stale pid would make every read wrong |
| SingleInstance.LockFile.EnsureSingleInstance | divoom_gui/single_instance.py:44-77 | An undisturbed call gets the lock if and only if nobody holds it, and is the run of its four steps |
| HelperIdentity.Machine.Write | divoom_client/helper_identity.py:94-107 | The identity of a live child resolves to it from now on if its start time could be read, and to nobody otherwise; the child is the last one recorded, processes and signals are untouched |
| HelperIdentity.Machine.StopNamed | divoom_client/helper_identity.py:154-172 | True if and only if a live process was resolved and signalling it was permitted; at most one process is signalled, the last recorded child; afterwards nothing resolves, except that a forbidden signal changes nothing at all |
| HelperIdentity.RunKeepsInv | divoom_client/helper_identity.py:94-172 | Any run of spawns, exits, pid reuse, writes, damage and stops keeps this: an intact identity names the instance it was last written for, whoever has the pid |
| HelperIdentity.IdentitySafety | divoom_client/helper_identity.py:124-172 | Over every run, whatever resolves is the process recorded last, and no process but a recorded child was ever signalled |
| HelperIdentity.IdentityFollowsChild | divoom_client/helper_identity.py:124-143 | An identity resolves if and only if its own process is alive, whoever has the pid since |
| BinaryResolver.BuiltCandidates | divoom_client/binary_resolver.py:126-132 | All built copies and no others, newest first, the release build first when they are equally old |
| BinaryResolver.Resolve | divoom_client/binary_resolver.py:153-205 | A named binary wins; a bundle answers with its first match or else its first copy; a dev tree with its newest match or not at all |
| BinaryResolver.StaleReport | divoom_client/binary_resolver.py:208-223 | The built copies whose version differs, in order; nothing when the expectation is unknown |
| BinaryResolver.StaleMembers | divoom_client/binary_resolver.py:218-223 | A copy is in the report if and only if it is built and of another version |
| BinaryResolver.StaleNewestFirst | divoom_client/binary_resolver.py:208-209 | The report keeps the order, newest first |
| BinaryResolver.DevTreeChoice | divoom_client/binary_resolver.py:173-205 | A stale binary is never chosen in a dev tree; the choice is missing if and only if every built copy is in the stale report |
| BinaryResolver.BundleAlwaysAnswers | divoom_client/binary_resolver.py:164-193 | A bundle never refuses and never leaves itself, and carries the expected version whenever one of its copies does |
| DaemonGuard.Machine.StopStaleDaemon | divoom_client/daemon_version.py:110-130 | The daemon is told to shut down once, and the call reports whether a poll found it gone before the deadline |
| DaemonGuard.Machine.AwaitDaemon | divoom_client/daemon_client.py:367-371 | Polling succeeds if and only if some poll before the deadline is answered |
| DaemonGuard.Machine.Ensure | divoom_client/daemon_client.py:309-381 | A local call answers with a client if and only if the daemon found answered and was not stopped, or one was spawned and answered a poll, and then a daemon owns the socket; it reports no binary if and only if it had to spawn and none was resolved; who is told and what is spawned; a remote call changes nothing |
| DaemonGuard.EnsureKeepsPromise | divoom_client/daemon_client.py:325-381 | The same of one call as a step of a run |
| DaemonGuard.RunKeepsInv | divoom_client/daemon_client.py:331-371 | Any run keeps this: only the daemon found at the start has been told, and every daemon that was spawned has the expected version |
| DaemonGuard.NoRestartLoop | divoom_client/daemon_client.py:331-371 | In a dev tree, rebuilt between calls or not, any sequence of calls tells at most the daemon found at the start, only if it was stale, and never one that was spawned |
| DaemonGuard.CurrentDaemonTold | divoom_client/daemon_client.py:339-346 | A current daemon is told to stop if and only if a local, checking call finds it answering the probe but not the version query |
| DaemonGuard.UnknownExpectationTellsNobody | divoom_client/daemon_client.py:339-343 | With an unknown expectation, or without the check, nobody is ever told |
| DaemonGuard.RestartLoopExactly | divoom_client/binary_resolver.py:164-193 | Repeating a call tells every daemon it spawned but the last to stop, or none, depending on one thing: whether the disk names or bundles only binaries of another version |
| PanelRelink.Host.Remember | divoom_gui/panel_relink.py:35-39 | A panel is held once, in link order |
| PanelRelink.Host.AfterEnsure | divoom_gui/panel_relink.py:54-73 | When a relink starts, what start time is remembered, and which panels are linked |
| PanelRelink.Host.Relink | divoom_gui/panel_relink.py:76-89 | The held panels the new daemon lacks are linked in order; all of them when it cannot say |
| PanelRelink.MissingExactly | divoom_gui/panel_relink.py:84-87 | Those and no others, each once, in the order they were held |
| PanelRelink.SameInstanceQuiet | divoom_gui/panel_relink.py:30-32 | Two readings of one instance never look like a respawn |
| PanelRelink.RespawnDetected | divoom_gui/panel_relink.py:54-66 | Every pair of readings shows a respawn if and only if the new instance started at least four seconds after the old one |
| PanelRelink.OneInstanceNeverRelinks | divoom_gui/panel_relink.py:35-73 | Over a session with one instance, failed readings and newly linked panels in between, no call relinks and no panel is linked |
| PanelRelink.RelinksAtEveryChange | divoom_gui/panel_relink.py:35-89 | Over a whole session of a host that links panels and meets instances at least four seconds apart, relinks start at exactly the calls that read another instance than the last one read with panels held, and the panels linked are, in order, those held then that the new daemon lacks |
| RecycledPid.AdvanceTo | scripts/recycled_pid_probe.py:84-109 | On return the next pid is the target; given a whole lap, it returns if and only if a free pid lies less than 50 below the target |
| RustSource.StripRustComments | tools/_srcscan.py:21-31 | Length is preserved |
| RustSource.CommentEndExactly | tools/_srcscan.py:18 | From the text alone, what the pattern matches: two slashes up to the next newline or the end, or an opening mark up to the first closing mark behind it |
| RustSource.CommentedExactly | tools/_srcscan.py:31 | A character is commented if and only if it lies in a comment of any left-to-right list of disjoint comments in which every place where a comment would begin is covered |
| RustSource.CommentsListed | tools/_srcscan.py:31 | There is such a list |
| RustSource.StrippedChar | tools/_srcscan.py:18-31 | Exactly the characters inside comments are blanked |
| RustSource.NewlinesKept | tools/_srcscan.py:22-26 | Every newline stays and none appears; any other character stays or becomes a blank |
| RustSource.NoCommentLeft | tools/_srcscan.py:18-31 | Nothing the comment pattern matches is left |
| RustSource.StripIdempotent | tools/_srcscan.py:21-31 | Stripping twice is stripping once |
| BoundedWrites.SeamSpan | tools/check_bounded_writes.py:48-64 | The block from the first brace behind the seam's name to the first place where braces balance, and nothing if and only if there is no such block |
| BoundedWrites.SpanUnique | tools/check_bounded_writes.py:48-64 | There is at most one such block |
| BoundedWrites.DepthExactly | tools/check_bounded_writes.py:56-63 | The depth counter is the number of opening braces less the number of closing ones |
| BoundedWrites.LineOfExactly | tools/check_bounded_writes.py:80 | A line number is one more than the number of newlines before the offset |
| BoundedWrites.OutsideIncreasing | tools/check_bounded_writes.py:77-80 | The sites outside the block keep their order |
| BoundedWrites.WritesExactly | tools/check_bounded_writes.py:77 | The matches found are all places where the pattern matches, in order |
| BoundedWrites.Audit | tools/check_bounded_writes.py:67-81 | All sites are counted, the lines of those outside the block are listed in order; a missing block is reported as line 0 |
| BoundedWrites.AuditSubmodule | tools/check_bounded_writes.py:84-87 | The lines of all sites, in order |
| BoundedWrites.LineOfOriginal | tools/check_bounded_writes.py:80 | Line numbers in the stripped text are those of the original |
| BoundedWrites.SitesAreUncommentedWrites | tools/check_bounded_writes.py:45-77 | The sites are exactly the writes of the original whose name and parenthesis stand outside comments with only white space and comments between |
| BoundedWrites.ReportedLines | tools/check_bounded_writes.py:67-81 | A line of the original is reported if and only if an uncommented write outside the seam function starts on it |

## Left out

- The frame encoder: it is part of the Rust daemon, which is not part of this model; `FramingCodec.Encode` is a specification.
- The iOS-LE checksum: the code reports it and does not verify it, and neither does the model.
- Bit operations as such: bytes are integers below 256, the 16-bit mask is a remainder, and the shifts and masks of the glyph code are arithmetic.
- Damaged iOS-LE frames over several deliveries: damage is covered within one delivery, whole frames of both framings and arbitrary bytes without the iOS-LE header under every chunking.
- RFCOMM, SDP, run loops, threads and asyncio: `OnData` is called with arbitrary chunks, one call at a time.
- UndefinedNamesTheorems.NoFalseAlarm: for the fragment without the walrus operator, `match`, `except*`, PEP 695 type parameters and star imports; `del` as a binding, private name mangling and the names Python puts into class bodies are not modelled either.
- UndefinedNamesFinder.Finder.Collect: the lists of names that the code adds to a set are sets from the start.
- `sorted()` of the report. The places the analyser never visits (targets of annotated assignments and of comprehensions, annotations of `*args` and `**kwargs`, the name an augmented assignment reads) are reads set apart in `NameResolution.Reads`.
- UndefinedNamesTheorems.ReportedReads: for a name that some function or class declares global, whether a read before that body is reported depends on the order of the walk; the exact condition is `UndefinedNamesTheorems.ReportedExactly`.
- JSON: an arbitrary partial decoder of stripped lines; what its encoder guarantees is a hypothesis of the round trips.
- Ndjson.Subscribe: `should_stop` and `recv` are the input; an exception raised by `on_event` and the connection attempt with its retries are left out.
- SingleInstance.MutualExclusionAndTruth: `int()` is modelled for decimal digits only, since only pids are written; a flush reaches the file as one write.
- HelperIdentity.IdentitySafety: a `stop` is one step and a `write` finds its child alive, as the code assumes; pairs of pid and start time are never repeated; `ps` output is text compared for equality, and the recorded command and time are left out.
- DaemonGuard.Machine.Ensure: deadlines are the number of polls that fit, and the daemon that answers after a spawn is the one spawned; what happens when a second daemon is started beside a live one that missed the probe, and concurrent calls, are left out.
- How a daemon is spawned (helper bundles, disclaimed spawn, log file) and how the expected version is read from disk.
- PanelRelink.Host.Relink: runs on a background thread in the code and at once in the model; failed links are counted as requests.
- PanelRelink.RespawnDetected: clock readings are real numbers; an adjusted clock is not modelled.
- RecycledPid.AdvanceTo: the allocator is quiescent, so the other processes' pids do not change while it runs.
- File reading and writing, PNG and floating-point code, the pywebview interface, the command line, and the Rust sources themselves.
