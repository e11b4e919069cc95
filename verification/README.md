# log-it: a verified model of the entry pipeline

A Dafny 4.11 model of the path an entry takes through the logger: the fields are collected and assembled, errors are
expanded, secrets are redacted, the entry is printed as JSON or logfmt, the line is filtered by level and fanned out to
sinks, possibly through a lossy asynchronous queue, and everything is shut down by Sync, Close or a FATAL entry.
`dafny verify dfyconfig.toml` checks the whole project.

Loops of the Go code are methods with loops, proved against functions; objects whose methods update fields (the
samplers, a nested `map[string]any`, the output side of a logger) are classes; the concurrent parts are step systems in
which every atomic operation of the Go code is one step and calls, closers and the drain goroutine interleave freely.

| file | what it holds |
|---|---|
| `Bytes.dfy`, `Utf8.dfy`, `Values.dfy` | byte strings and their order, UTF-8 (sections 3 and 4 of RFC 3629), levels and entry values |
| `Encoder.dfy` | the JSON printer |
| `Rfc8259.dfy` | a parser for the full grammar of RFC 8259, the yardstick |
| `RoundTrip.dfy` | print then parse, injectivity, framing of lines |
| `LevelFilter.dfy` | the substring search that recovers a level from an encoded line |
| `AsyncWriter.dfy`, `LoggerProtocol.dfy` | the lossy queue and its drain goroutine; log calls, the sampler gate, Sync and FATAL over it |
| `LoggerHistory.dfy` | what became of each log call, told from the steps of the run |
| `EveryN.dfy`, `RateLimit.dfy` | the every-N and the per-second sampler |
| `Ansi.dfy`, `Logfmt.dfy` | the text sanitizer; the logfmt printer and a parser for it |
| `OrderedWrites.dfy`, `KeyMaps.dfy`, `ErrorFields.dfy`, `Assembly.dfy` | loops over maps in unspecified order: key maps, error enrichment, placement of user fields |
| `Redact.dfy`, `Exposure.dfy` | in-place redaction of nested maps; what a printed line still shows of a listed field |
| `Sinks.dfy`, `Pipeline.dfy` | trees of filters and fan-outs over sinks; whole runs from log calls to sinks |

Iteration over a Go map has no fixed order. Such a loop picks any remaining key, its contract says that the result is one
of the outcomes of the loop (`OrderedWrites.Outcome`), and the lemmas hold for every outcome, or say exactly when there is
only one.

## Where the code and its documentation disagree

The model follows the code.

- A Write on a closed AsyncWriter is documented to return `ErrWriterClosed` (writer_async.go:10, 43-46). The send panics,
  the panic is recovered, and the call returns zero values. No Write of any run returns an error
  (`AsyncWriter.NoWriteFails`); a late one ends with 0 bytes and counts as rejected, not as dropped
  (`AsyncWriter.LateWriteIsSilent`, `AsyncWriter.LateWritesAreRejected`).
- RateSampler is documented to allow at most N entries per second per level (sampler.go:43-45). Entries at the end of one
  window and in the next can come to 2N - 1 within a second; the documented claim holds if and only if N is 1
  (`RateLimit.AsDocumentedIffOne`).
- Entries without a readable level are documented to pass a FilteredWriter unchanged (writer_filtered.go:46-48). They
  count as INFO, so the filter lets them pass exactly when the minimum is INFO or lower
  (`Sinks.UnparseableLinePassesIff`, with a line of plain text in `Sinks.PlainTextIsDropped`).
- The level filter is documented to inspect the `level` field (writer_filtered.go:8-10). User data nested under a key that
  sorts before it can be read instead (`Pipeline.NestedLevelIsRead`); `Pipeline.CallLevelIsRead` says exactly when the
  level of the call is read.
- `stripANSI` is documented to remove escape sequences (formatter.go:132-133). Removing one can bring an ESC and a `[`
  together (`Ansi.IntroducerCanSurvive`); `Ansi.IntroducerSurvivesIff` says exactly when an introducer is left over.
- LogfmtFormatter is documented to render an entry as a single line (formatter.go:188). Quoted values keep their newlines
  (`Logfmt.NewlineSurvives`); `Logfmt.OneLineIff` says exactly when the output is one line.
- Redaction is documented never to leak the listed fields (redact.go:3-7). It runs behind error enrichment and the moving of
  reserved names, so listing the field's name is not enough for a wrapped error or a reserved name
  (`Exposure.ListingTheNameIsNotEnough`); `Exposure.HiddenIffListed` says exactly what has to be listed.
- Middleware is documented to run under the logger's mutex (pipeline.go:24). It runs before the lock (logger.go:370-394): no
  call ever holds the mutex in its middleware (`LoggerProtocol.MiddlewareOutsideLock`), and two calls can be there while a
  third holds it (`LoggerProtocol.MiddlewareRunsConcurrently`).

## Model

| member | source | states |
|---|---|---|
| Utf8.DecodeEncoded | encode.go:141-149 | the decoder the printer relies on undoes RFC 3629 encoding for every scalar value, whatever follows, and never reports an error for it (so a genuine U+FFFD is kept) |
| Utf8.DecodedIsEncoding | encode.go:141-149 | what decodes without error is the encoding of exactly one scalar value |
| Utf8.ValidIffEncoded | encode.go:141-149 | a byte string scans without error if and only if it is a concatenation of encoded scalar values |
| Utf8.RepairIdentityIffValid | encode.go:142-145 | replacing invalid bytes by U+FFFD changes a string if and only if it is not valid UTF-8 |
| Utf8.RepairedIsValid | encode.go:142-145 | the repaired string is valid UTF-8 |
| Encoder.AppendJSONString | encode.go:116-153 | appends to an unchanged `dst` the literal that StringLiteral and EscapedIsClean are about |
| Encoder.AppendJSONValue | encode.go:37-103 | appends to an unchanged `dst` the text that ValueRoundTrip is about, for every value tree |
| Encoder.AppendJSONEntry | encode.go:16-34 | the same for a map, whatever order its keys are visited in |
| Bytes.LessByFirstDifference | encode.go:21 | the order of the printed keys: the first differing byte decides, and a proper prefix comes first |
| RoundTrip.UnitParses | encode.go:118-150 | what one iteration of the string loop appends is one `char` of section 7 of RFC 8259 and stands for the bytes that iteration consumed, repaired |
| RoundTrip.UnitForm | encode.go:118-158 | two-byte escapes for the quote, the backslash, LF, CR and TAB, six bytes with lower-case hex digits for other control bytes and invalid bytes, and nothing else is escaped |
| RoundTrip.HexDigitValue | encode.go:155-158 | the hex digit printed for a nibble has that value |
| RoundTrip.EscapedIsClean | encode.go:116-153 | between the quotes there is no byte below 0x20, and with every backslash paired with the byte behind it, no quote stands outside such a pair |
| RoundTrip.StringLiteral | encode.go:116-153 | parsing a printed literal gives the input with each invalid byte replaced by U+FFFD and leaves what follows; it gives the input itself if and only if that is valid UTF-8 |
| RoundTrip.IntParses | encode.go:45-64 | a printed integer parses to that integer, before any bytes that cannot extend a number |
| RoundTrip.ValueRoundTrip | encode.go:37-103 | a printed value tree parses as exactly one RFC 8259 value, the one it denotes, and the parser stops where the value ends |
| RoundTrip.EntryRoundTrip | encode.go:16-34 | a printed entry is a JSON text that denotes the entry |
| RoundTrip.PlainEntryRoundTrip | encode.go:16-34 | for nulls, booleans, integers, valid UTF-8 strings, arrays and maps, parsing gives back the entry itself |
| RoundTrip.SameTextSameMeaning | encode.go:37-103 | any two values that print alike denote the same JSON tree |
| RoundTrip.EncodingIsInjective | encode.go:37-103 | distinct plain values never print alike |
| RoundTrip.NoControlBytes | encode.go:37-103 | no printed value contains a byte below 0x20, hence no newline |
| RoundTrip.Framing | logger.go:388-397 | splitting the output of any sequence of entries at newlines recovers one line per entry, in order, with nothing left over, and each parses to its entry |
| Levels.FromNameOfName | level.go:21-38 | the filter's switch inverts Level.String on the six named levels and reads anything else as INFO |
| Levels.NamedInOrder | level.go:13-38 | TRACE, DEBUG, INFO, WARNING, ERROR, FATAL are the names of 0 to 5, in Level.String and in the filter's switch; every other level is UNKNOWN |
| LevelFilter.ExtractLevel | writer_filtered.go:73-101 | index arithmetic and switch compute the level after the first occurrence of the pattern, for every input and every level key |
| LevelFilter.ContentPrefix | writer_filtered.go:76-77 | a printed string followed by its closing quote starts like the plain level key and its closing quote only if it is that key: escaping hides no other match |
| LevelFilter.LiteralScan | writer_filtered.go:76-77 | the matches that start inside or at a printed literal are exactly the one its key causes |
| LevelFilter.ValueScan | writer_filtered.go:73-101 | the first match that starts inside a printed value tree is the first hit of the tree in document order |
| LevelFilter.ExtractedIsFirstHit | writer_filtered.go:73-101 | on the line of any entry, the search finds the first member, in document order, whose key is the level key or ends in a quote and the level key and whose value prints as a string |
| LevelFilter.ExtractedIsFirstKey | writer_filtered.go:73-101 | without look-alike keys this is the first key equal to the level key with a string value |
| LevelFilter.LevelRecoveredIff | writer_filtered.go:73-101 | the level an entry was logged at is read if and only if there is no hit under a smaller key, or that hit names the same level |
| LevelFilter.LevelRecovered | writer_filtered.go:73-101 | it is read whenever no smaller key is the level key's look-alike or holds the level key or a look-alike |
| LevelFilter.NestedLevelHijacks | writer_filtered.go:73-101 | in any entry, a level key in a map nested under the first such smaller key is read instead |
| LevelFilter.UnreadableIsInfo | writer_filtered.go:77-99 | a line without the pattern, without a quote behind its first occurrence, or with no level name there, counts as INFO |
| LevelFilter.ReadableIsNamed | writer_filtered.go:77-97 | every line that is not unreadable has the level named between the first occurrence of the pattern and the next quote |
| AsyncWriter.InvRun | writer_async.go:47-91 | the channel, counting and once-only invariants hold after every step of every interleaving |
| AsyncWriter.OrderAndConservation | writer_async.go:47-72 | in every reachable state delivered, in hand and queued make up the accepted writes in acceptance order, the queue is within capacity, and every completed write is delivered, in hand, queued, dropped or rejected |
| AsyncWriter.DestinationGrows | writer_async.go:67-72 | along every run the destination and the accepted writes only grow, and nothing is accepted once the channel is closed |
| AsyncWriter.DropIffFull | writer_async.go:30-62 | at its select on the open channel of a writer made for `bufferSize` messages (4096 when that is not positive), a write puts the message it began with on the channel and returns its length if and only if fewer than that are queued, and otherwise goes on to be counted as dropped |
| AsyncWriter.AcceptedWriteReturns | writer_async.go:47-63 | such an accepted write keeps reporting the length of its message in every continuation, and the message stays among the accepted ones |
| AsyncWriter.CloseDrainsAndFreezes | writer_async.go:77-91 | when any Close or Sync call has returned, first, repeated or concurrent, everything accepted is delivered and no continuation changes the destination or syncs it again |
| AsyncWriter.CloseIsIdempotent | writer_async.go:74-87 | once a Close has returned, another one returns without waiting and changes nothing |
| AsyncWriter.DestSyncedAtMostOnce | writer_async.go:77-87 | dest.Sync is called at most once in a whole run, and only after everything accepted was delivered |
| AsyncWriter.SyncedIffSyncer | writer_async.go:77-91 | once a Close has returned, dest.Sync has been called exactly if the destination the writer was made with has one |
| AsyncWriter.DrainIsEnabled | writer_async.go:67-72 | after the channel is closed the drain goroutine can always take a step until it has closed `done` |
| AsyncWriter.DrainCountdown | writer_async.go:67-72 | each of its steps counts down 2 * queued plus its own position, so `done` is closed after exactly that many, whatever the other calls do meanwhile |
| AsyncWriter.ClosersAreReleased | writer_async.go:77-87 | once `done` is closed, a closer that waits for it, or for the once, can proceed or waits for one that can |
| AsyncWriter.NoCallIsStuck | writer_async.go:47-91 | in every reachable state every call can take its next step, or waits for the drain goroutine or the call that runs the once body, which can then take one |
| AsyncWriter.OneWriteIsDelivered | writer_async.go:30-91 | for every buffer size, destination and message, some run of one Write and one Close delivers the message, with both returned |
| AsyncWriter.LateWriteIsSilent | writer_async.go:47-63 | a write still before its select when the channel is closed ends with 0 bytes and no error as soon as it gets there, in every continuation, and is never about to be counted as dropped |
| AsyncWriter.NoWriteFails | writer_async.go:43-63 | in every reachable state, no write that has returned carries an error |
| AsyncWriter.LateWritesAreRejected | writer_async.go:47-63 | along every run on a closed channel, each write that reaches its select is counted as rejected, and the drop counter moves only for writes that had found the open channel full |
| LoggerProtocol.InvStep | logger.go:269-285 | every step of any mix of log calls, Sync calls, Close calls and the drain goroutine keeps the mutex and writer invariants |
| LoggerProtocol.OneWriterAtATime | logger.go:394-395 | no two calls are in the locked region |
| LoggerProtocol.MutexOrder | logger.go:394-402 | the destination is always a prefix of the accepted lines in mutex order, at most capacity + 1 lines behind |
| LoggerProtocol.FatalFlush | logger.go:414-421 | whenever exitFunc is about to be called, the destination holds every accepted line in mutex order, ends with the FATAL line if that was accepted, and no other call is in the locked region |
| LoggerProtocol.FatalExits | logger.go:414-421 | in every reachable state the calls that have called exitFunc are exactly the FATAL calls on their way out after writing or completed; each has called it once, with the writer closed and everything accepted delivered |
| LoggerProtocol.OneFatalCall | logger.go:269-422 | for every buffer size, destination and line, some run of a single FATAL call delivers the line, calls exitFunc once and releases the mutex |
| LoggerProtocol.LateLines | logger.go:97-110 | after Sync's store every line written comes from a call already past its closed check, one line per such call at most |
| LoggerProtocol.LateCallNeverWrites | logger.go:271-273 | a call whose closed check comes after the store never writes |
| LoggerProtocol.SyncFreezesDestination | logger.go:97-110 | once some Logger.Sync has returned, the destination holds every accepted line and never changes, even with callers still racing |
| LoggerProtocol.LinesMeetTheWriter | writer_async.go:30-62 | over a writer made for `bufferSize` messages (4096 when that is not positive), a line at its select is rejected, accepted or dropped as the channel is closed, holds fewer than that many, or neither; and after a Sync or a FATAL call has returned the destination has been synced exactly if it can be |
| LoggerProtocol.CountersTell | writer_async.go:47-63 | the writer has rejected exactly the lines written after its Close, and its drop counter, with the calls about to count themselves, is the number of lines that found the channel full |
| LoggerProtocol.NoCallIsStuck | logger.go:97-110 | in every reachable state every call can take its next step, or waits for a mutex another call holds, or waits inside Close for a step of the drain goroutine or of other code, which can then be taken |
| LoggerProtocol.SamplerSparesErrors | logger.go:274-281 | in every reachable state, no ERROR or FATAL call stands at the sampler or was stopped by it or holds a ticket, the counters of these levels are zero, and a lower call is past the sampler only with a ticket it admitted |
| LoggerProtocol.SampledShare | logger.go:274-281 | behind the gate, in any interleaving with everything else, of k calls of a level that reached the sampler exactly the ceiling of k / n go on and the others end there |
| LoggerProtocol.SamplerNeverBlocks | sampler.go:35-41 | a call at the sampler can always take its next step |
| LoggerProtocol.MiddlewareOutsideLock | logger.go:370-394 | no call holds the mutex when it runs its middleware |
| LoggerProtocol.MiddlewareRunsConcurrently | logger.go:370-394 | a reachable state in which two calls run their middleware while a third holds the mutex |
| LoggerHistory.FateOfACall | logger.go:269-422 | over every run, a call is refused only by a closed logger and before its gate, ends below the minimum if and only if it met one above its level, is dropped if and only if its middleware said so, and completes only after its write |
| LoggerHistory.MinimumDecides | logger.go:274-276 | over every run, a call at `level` that met the minimum `m` ends below the minimum if and only if `level < m`, and then nothing of it passes through the writer |
| LoggerHistory.SectionsAreTheCalls | logger.go:371-402 | over every run, each passage through the writer carries the level and line its call was made with, follows a gate that let the level through and a middleware that kept the entry, and is the only one of its call |
| EveryN.EveryNSampler.constructor | sampler.go:27-32 | a period below 1 becomes 1 and all counters start at zero |
| EveryN.EveryNSampler.Sample | sampler.go:35-41 | adds one, with 64-bit wrap-around, to the counter of that level only, and decides on the ticket |
| EveryN.AdmitsFirstOfN | sampler.go:39-40 | a ticket is admitted if and only if it is 1 modulo n (always for n = 1) |
| EveryN.EveryNExact | sampler.go:35-41 | under every interleaving, of k finished calls at a level exactly the ceiling of k / n return true, namely those ranked 1 modulo n at that level |
| RateLimit.RateSampler.constructor | sampler.go:59-64 | a budget below 1 becomes 1 and all buckets start empty |
| RateLimit.RateSampler.Sample | sampler.go:68-83 | opens a new window when the old one is over, counts the call, touches the bucket of that level only |
| RateLimit.LevelsAreIndependent | sampler.go:68-83 | the bucket of a level depends on the calls at that level only |
| RateLimit.RateBound | sampler.go:68-83 | for a clock that does not go backwards, a closed interval of k seconds admits at most (k + 1) * perSecond calls of a level, and one less when the clock is positive |
| RateLimit.RateBoundPerLevel | sampler.go:68-83 | the same for any interleaving of calls at all levels |
| RateLimit.RateBoundIsSharp | sampler.go:68-83 | for every perSecond and every k up to a thousand million, some calls on a positive clock reach (k + 1) * perSecond - 1 |
| RateLimit.AsDocumentedIffOne | sampler.go:43-45 | at most perSecond calls in every closed second, for all clocks and calls, holds if and only if perSecond is 1 |
| RateLimit.RefusedIffBudgetSpent | sampler.go:76-82 | a call falls into a window opened at most a second earlier, and is refused if and only if exactly perSecond calls were admitted in that window before it |
| Ansi.StripANSI | formatter.go:134-157 | the index loop and its fast path compute the scanner the lemmas below are about |
| Ansi.NothingToStrip | formatter.go:135-138 | the fast path agrees with the loop |
| Ansi.StripKeepsTexts | formatter.go:134-157 | for every text cut into plain bytes, complete sequences and a possibly unfinished last one, exactly the plain bytes are kept |
| Ansi.Tokenize | formatter.go:134-157 | every text can be cut that way |
| Ansi.StandardSequenceRemoved | formatter.go:159-162 | a control sequence of section 5.4 of ECMA-48 is removed whole |
| Ansi.SequenceGoesOn | formatter.go:142-150 | a sequence ends at the first byte from 0x40 to 0x7E and not before, and an unfinished one leaves nothing |
| Ansi.StripIsSubsequence | formatter.go:134-157 | nothing is added or reordered |
| Ansi.IntroducerSurvivesIff | formatter.go:134-157 | for every text cut into plain bytes and sequences, the output contains ESC `[` if and only if a plain ESC is followed by complete sequences only and then by a plain `[` |
| Ansi.OutputIsFreeOfIntroducers | formatter.go:134-157 | input without ESC ESC `[` comes out without ESC `[` |
| Ansi.IntroducerCanSurvive | formatter.go:132-133 | an input whose output is ESC `[` |
| Ansi.SanitizeText | formatter.go:125-130 | composes the scanner and the two replacements |
| Ansi.SanitizeByByte | formatter.go:125-130 | outside sequences LF becomes a backslash and `n`, CR a backslash and `r`, and every other byte stays, an ESC without `[` included |
| Ansi.SanitizedIsOneLine | formatter.go:122-130 | the output has no LF and no CR, and text without ESC, LF and CR is unchanged |
| OrderedWrites.OrderIndependentIff | formatter.go:167-173 | a loop of map assignments gives one result for every iteration order if and only if keys that write to the same place write the same value |
| KeyMaps.ApplyKeyMap | formatter.go:165-175 | the result is an outcome of renaming the keys one by one in some order, and without collisions it is the renamed entry of NothingLost |
| KeyMaps.KeyMapOrderIndependentIff | formatter.go:165-175 | that order is invisible if and only if keys renamed alike hold equal values |
| KeyMaps.RenamedWhere | formatter.go:165-175 | whatever else collides, a key that no other key meets holds its value under the name the key map gives it, or under its own if it is not mapped; a mapped key stands under its old name if and only if another is renamed to it |
| KeyMaps.GoogleCloudKeys | formatter.go:262-266 | the Google Cloud preset turns `level` and `message` into `severity` and `textPayload` with their values, and nothing else is left |
| KeyMaps.NothingLost | formatter.go:165-175 | without collisions every mapped key's value is under its new key, every other value under its own, and nothing else appears |
| KeyMaps.InverseRestores | formatter.go:165-175 | the inverse key map undoes an injective one whose targets are no kept keys |
| ErrorFields.EnrichErrors | errors.go:16-47 | the result is an outcome of expanding the errors one by one in some order, which EnrichedFields is about |
| ErrorFields.EnrichField | errors.go:32-41 | one error: message, type, and the chain of the unwrap loop exactly when it is longer than one |
| ErrorFields.EnrichOrderIndependentIff | errors.go:16-47 | one result for every order if and only if no error sits under another error's `_type` key with a different text, or under a `_chain` key another error emits |
| ErrorFields.EnrichedFields | errors.go:8-15 | then every error has message, type and, if wrapped, chain; fields no error writes to pass through |
| ErrorFields.ChainOnlyIfWrapped | errors.go:35-41 | an error that wraps nothing gets no chain |
| ErrorFields.NoErrorsNoChange | errors.go:14-15 | without errors the map is returned as it is |
| Assembly.MergeFields | logger.go:249-264 | the two copy loops and the two shortcuts compute the union in which the overlay wins |
| Assembly.MergeIsAMonoid | logger.go:249-264 | merging is associative with the empty map as identity |
| Assembly.CollectFields | logger.go:305-315 | collects persistent fields, extractor results (a panicking one contributes nothing) and per-call fields |
| Assembly.FieldPrecedence | logger.go:287-288 | for any chain of With calls and extractors: per-call fields win over later extractors, those over earlier ones, those over later With calls, those over earlier ones |
| Assembly.AssembleEntry | logger.go:325-368 | the entry before middleware: core keys, then the enriched fields in some order, then the stack trace |
| Assembly.ReservedKeysAreTheLoggers | logger.go:358-364 | for every iteration order a reserved key is present with a value if and only if the logger put it there |
| Assembly.LevelIsTheCalls | logger.go:326-329 | the level of the finished entry is that of the call |
| Assembly.ReservedKeyValues | logger.go:326-368 | every one of the ten reserved keys of the finished entry is present exactly when its option is on (the stack trace from ERROR up), with its own value, whatever the user fields are |
| Assembly.PlacementOrderIndependentIff | logger.go:358-364 | the placement depends on the order if and only if a field named like a core key meets a different one that already carries its prefixed name |
| Assembly.UserFieldsKept | logger.go:171-177 | otherwise every user field is in the entry: those with one of the ten reserved names behind `fields.`, all others under their own name |
| Assembly.NothingElsePlaced | logger.go:358-364 | and the placement adds no other key |
| Assembly.FieldsOfTheEntry | logger.go:325-368 | the same for the finished entry of a call whose fields hold no errors |
| Logfmt.NeedsLogfmtQuoting | formatter.go:249-260 | true if and only if the value is empty or holds a byte up to space, a quote, an equals sign or a backslash |
| Logfmt.PrintedBareIff | formatter.go:234-260 | a value is printed bare if and only if it is nonempty and free of bytes up to 0x20, quotes, equals signs and backslashes; otherwise between quotes, with a backslash before each of its quotes |
| Logfmt.AppendLogfmtPair | formatter.go:234-246 | appends the pair that PairParsesIff is about |
| Logfmt.Format | formatter.go:190-231 | prints, after the key map, the line that LogfmtRoundTripIff is about |
| Logfmt.PrintOrderShape | formatter.go:199-226 | every key is printed once: `time`, `level`, `message` and `file` first, in that order as far as present, the others strictly increasing |
| Logfmt.UnescapeUndoes | formatter.go:241 | removing the quote escapes gives back every value, without condition |
| Logfmt.PairParsesIff | formatter.go:234-246 | a printed pair reads back, leaving what follows, if and only if its key has no equals sign and its value does not end in a backslash |
| Logfmt.LogfmtRoundTripIff | formatter.go:190-231 | a line reads back as its pairs in print order if and only if that holds for every pair |
| Logfmt.OneLineIff | formatter.go:188-246 | the output has no newline if and only if no key and no value has one |
| Logfmt.NewlineSurvives | formatter.go:188-246 | an entry whose output has a newline |
| Redaction.GoMap.Redact | redact.go:25-36 | the in-place recursion turns the contents of the whole tree into their redaction, in any visiting order, and terminates |
| Redaction.GoMap.RedactKey | redact.go:27-34 | one iteration redacts what is under its key and changes nothing under the others |
| Redaction.UnlistedPathsKept | redact.go:25-36 | along a path without listed keys nothing appears or disappears, and what is no map is unchanged |
| Redaction.ListedKeysReplaced | redact.go:27-29 | a listed key reachable through maps holds the replacement, and nothing below it can be reached any more |
| Redaction.RedactedIsClean | redact.go:25-36 | afterwards no listed key reachable through maps holds anything else |
| Redaction.CleanIffUnchanged | redact.go:25-36 | redaction changes nothing if and only if the value is already in that state |
| Redaction.RedactTwice | redact.go:25-36 | a second redaction changes nothing |
| Exposure.ListedIsHidden | redact.go:25-36 | listing them hides the value whatever the other fields are and in whatever order they are visited |
| Exposure.HiddenIffListed | redact.go:25-36 | the possible lines of a call are the same for all values of a field, up to whether it is an error and wraps one, if and only if every key the field writes is listed under the name it ends up at |
| Exposure.ListingTheNameIsNotEnough | redact.go:3-7 | with only its own name listed, a wrapped error shows in the printed line, and so does a field with a reserved name |
| Sinks.Output.Write | writer_fanout.go:23-31 | filter and fan-out writes over the sinks compute WriteTo: returned count, error, and what every sink received |
| Sinks.Output.Emit | logger.go:397-402 | an error is counted once and only then the line goes to the fallback; with distinct sinks nothing is counted if and only if no sink the line reaches fails |
| Sinks.Output.Sync | writer_fanout.go:35-44 | the sync loop collects the failing sinks in order and syncs each |
| Sinks.OtherSinksUntouched | writer_fanout.go:23-31 | a write changes no sink outside the writer |
| Sinks.WriteIsLocal | writer_fanout.go:23-31 | the outcome of a write depends on the writer's own sinks only |
| Sinks.WriteTriesInTurn | writer_fanout.go:23-31 | a write to any tree of filters and fan-outs is: try the sinks the line reaches one after the other and stop at the first that fails, with its count and error |
| Sinks.WriteOkIff | writer_filtered.go:49-55 | with distinct sinks a write succeeds, with the full length, if and only if no sink the line reaches fails; a line no sink is reached by counts as written |
| Sinks.WriteLeaves | writer_fanout.go:23-31 | of the sinks a line reaches, those before the first failing one have received it once, that one has not, and those behind it have not been tried |
| Sinks.FanOutFailsFast | writer_fanout.go:22-31 | success if and only if no writer fails on its own; writers up to the first failing one are left as they would be alone, later ones are not written to |
| Sinks.WriteDelivers | writer_filtered.go:49-55 | on sinks that do not fail, a line is received once by exactly the sinks whose filters pass it |
| Sinks.Format | formatter.go:32-45 | the JSON formatter prints the entry after its key map |
| Sinks.LineLevel | formatter.go:32-45 | through a key map without collisions, the level is read under the key the map gives it |
| Sinks.MinimumPasses | writer_filtered.go:49-55 | by the names of the levels: a filter passes on an entry's line if and only if the name it was logged at does not stand before that of the minimum |
| Sinks.SinksReceiveTheirLevels | writer_filtered.go:49-55 | for any run of entries, key map without collisions, and tree of fan-outs and filters with the matching level key, each sink receives exactly the lines of the entries whose level it takes, in order |
| Sinks.UnparseableLinePassesIff | writer_filtered.go:46-51 | a line without a readable level is passed on by a filter over any writer if and only if the minimum is INFO or lower |
| Sinks.PlainTextIsDropped | writer_filtered.go:46-48 | a line of plain text that a filter stops |
| Sinks.SyncReachesEverySink | writer_fanout.go:33-44 | every syncing sink is synced once, whatever the others report, and the reported sinks are exactly those that failed |
| Sinks.SyncReportsInOrder | writer_fanout.go:35-44 | a sync of any tree reports the sinks that fail from left to right, each as often as it occurs, and stops at none |
| Pipeline.EnrichmentIsHarmless | errors.go:16-47 | expanding errors adds nothing that could be taken for the level |
| Pipeline.LevelKeyIsTheLoggers | logger.go:171-172 | whatever user fields are called, nothing in front of an assembled entry's level key can be taken for it, provided the fields placed there do not hold it nested |
| Pipeline.CallLevelIsRead | writer_filtered.go:73-101 | the filter reads the level of the call from the line of the assembled entry if and only if nothing in front of the level key names another level; harmless fields are enough |
| Pipeline.CallsReachTheirSinks | logger.go:325-402 | for any run of log calls, each sink receives exactly the lines of the calls whose level it takes, in call order |
| Pipeline.OthersAreMisrouted | writer_filtered.go:49-55 | for a call that does not read back, some filter decides against its level, so the condition cannot be dropped |
| Pipeline.NestedLevelIsRead | writer_filtered.go:73-101 | for every level, message and setting, a call with one nested map is read at the level the map names |

## Left out

- LevelFilter.ExtractedIsFirstHit: level keys that are not printed as themselves, or that begin with a colon, comma, closing bracket or closing brace, are not covered; for the latter the pattern can match across two literals. LevelFilter.ExtractLevel covers every key.
- Sinks.SinksReceiveTheirLevels: assumes sinks that do not fail; failing sinks are covered one write at a time by Sinks.WriteTriesInTurn, Sinks.WriteLeaves and Sinks.Output.Emit.
- Sinks.FanOutFailsFast: each sink sits in one branch, here and in Sinks.WriteOkIff, Sinks.WriteLeaves, Sinks.WriteDelivers and Sinks.SyncReachesEverySink; a sink shared by several branches is covered by Sinks.WriteTriesInTurn and Sinks.SyncReportsInOrder.
- Sinks.WriteTriesInTurn: a failing sink is taken to report 0 bytes written.
- Pipeline.CallsReachTheirSinks: has no middleware and no key map; Sinks.SinksReceiveTheirLevels allows both, for entries that meet its conditions.
- EveryN.EveryNExact: up to the int64 limit of the counter; Sample itself models the wrap-around.
- EveryN.EveryNSampler.Sample: a negative level, which panics in Go, is excluded; the same holds for RateLimit.RateSampler.Sample.
- RateLimit.RateSampler.Sample: the bucket's count and the clock are unbounded integers, and one call is one step because the bucket's mutex is held throughout.
- AsyncWriter.OrderAndConservation: the drop counter is unbounded, and dest.Write is taken to return.
- Exposure.HiddenIffListed: the necessity half is for fields whose keys no other field writes or moves onto; redaction is the only middleware and there is no key map.
- RateLimit.RateBoundIsSharp: intervals of up to a thousand million seconds; in longer ones the nanosecond between two windows adds up to a window.
- LoggerProtocol.SampledShare: the sampler is an every-N sampler or none; as in EveryN.EveryNExact, up to the int64 limit of the counter.
- LoggerProtocol.InvStep: calls have one of the six named levels, as all logging methods pass; hooks and exitFunc are taken to return and not to call the logger; other code may Close the AsyncWriter, but only the logger writes to it.
- Redaction.GoMap.Redact: nested maps form a tree; maps shared between keys or containing themselves are not modelled.
- Assembly.MergeFields: maps are values here, so which map is shared with the caller, and that inputs stay unmodified, is not captured; the same holds for ErrorFields.EnrichErrors and KeyMaps.ApplyKeyMap.
- Logfmt.Format: a value is given as the text `%v` renders for it.
- Floats, json.Number, time.Duration and the encoding/json fallback of appendJSONValue, and with it the marshal-error branch of writeEntry: library formatting.
- Log valuers, timestamps, host name, caller, stack traces and event ids: given as values.
- TextFormatter beyond its sanitizer, colours, terminal detection and environment configuration: thin or I/O.
- The slog handler, the global logger, contexts, timing and typed field helpers: adapters that would add only easy members.
- SyncWithTimeout and the filtering of harmless sync errors: wrappers around Sync.
- Buffer pools and allocation.
