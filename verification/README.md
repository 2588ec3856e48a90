# Verification of the earl core

A Dafny model of the parts of earl that hold state or rewrite text, with proofs of what they promise.
`dafny verify dfyconfig.toml` checks the whole project. Loops and objects of the program are methods and
classes here, each proved against a function that says what it computes; the properties are lemmas about
those functions.

- **Streaming** (`utf8`, `sse`, `sse_encoding`, `sse_crlf`, `sse_mixed`, `sse_spellings`, `stream`,
  `streaming`, `stream_limit`): HTTP chunks pass a UTF-8 boundary buffer, an incremental parser of
  Server-Sent Events and a size-limited sender. How a body is cut into chunks is invisible in what is
  delivered, as long as its line-feed blank lines come before its CRLF ones and it is no longer than the
  limit.
- **JWKS cache** (`jwks`): concurrent callers as a state machine of their steps (read the clock, check
  under the read lock, fetch, install under the write lock, release it or fall back), and safety of all
  its runs.
- **Redaction** (`redact`, `redact_encodings`, `json`, `sorting`): sequential replacement of secrets and their
  encodings by a mark, what the encodings denote, and exactly when nothing shows afterwards.
- **Template catalog** (`catalog`, `template_cache`, `cache_coherence`): last-writer-wins loading, and the
  cached catalog against fresh builds over runs of edits and loads.
- **Readers and printers** (`stdio`, `stdio_roundtrip`, `stdio_spellings`, `tokeniser`, `cli_import`,
  `cli_lines`, `example_cli`, `cli_counts`, `example_cli_exact`, `expr`):
  stdio frames, shell quoting and example command lines, and template function expressions.
- **Trees and maps** (`accessibility`, `snapshot`, `secrets`): page snapshots and dotted-key insertion.
- **Access and execution** (`policy`, `access`, `retry`, `retry_traces`): glob rules, listing against
  calling, and the redirect loop inside the retry loop.
- `strings`, `integers` and `wrappers` hold what the others share.

The outside is a parameter everywhere: a body is a list of chunks and a flag for a broken connection, the
network answers by a function of everything that has happened, a fetch, the clock, the store of secrets,
the JSON printer and the ranking score are arguments.

## Where the code differs from what it says

The model follows the code. These points are proved:

- `feed` looks for a line-feed pair first, so streams that mix separators are not cut alike
  (`Sse.CutsInvisibleIff`), and events get lost with the cuts (`SseMixed.MixedEventsDependOnCuts`).
- The guard against a server that never sends event boundaries looks at the UTF-8 buffer only, so for bodies
  longer than the limit the cuts may decide whether it trips (`StreamLimit.CutsDecideIff`).
- The cooldown of the JWKS cache does not hold after a fetch of an empty key list
  (`Jwks.NoFetchDuringCooldown`, `Jwks.EmptyFetchDefeatsCooldown`).
- Secrets that are part of the word `REDACTED` show in redacted text (`Redact.RedactorCompleteIff`), and
  object keys are not redacted (`Redact.RedactJsonKeepsShape`).
- The template cache serves stale catalogs when a build depends on more than the stamps of `.hcl` files
  (`TemplateCache.CoherentIff`): after an edit within one modification time
  (`CacheCoherence.EditUnderOneStampGoesStale`), and when the local directory is the global one
  (`CacheCoherence.SharedDirectoryGoesStale`), because the fingerprint does not say which directory a file
  was found in.
- `shell_quote` prints `""` for the empty text, which the tokeniser drops, and the tokeniser takes a
  backslash as an escape inside single quotes too (`Tokeniser.TokeniseUndoesQuoting`). The example line of
  a string parameter without a default is therefore never read back
  (`ExampleCliExact.ExampleLineReadsBack`).
- The snapshot announces a truncation when the tree exactly meets the limit
  (`Accessibility.NoticeIsFalseIff`).
- Of two dotted keys one of which leads through the other at most one is found (`Secrets.AllFoundIff`).
- A tool whose key has capitals is listed, and calling it by that key does not reach it
  (`Access.ListingAgreesIff`).

## Model

| member | source | states |
|---|---|---|
| Sse.ParseBlock | crates/earl-protocol-http/src/sse.rs:77-112 | the loop over the lines yields the event of the block: the `data` values in order, the last `event` and the last `id` value, and no event when there is no `data` line; what these are for every spelling of a line is `SseSpellings.EverySpellingReads` |
| Sse.SseParser.Feed | crates/earl-protocol-http/src/sse.rs:35-62 | feeding emits exactly the events of the complete blocks of buffer and input together, and keeps exactly what follows the last complete block |
| Sse.SseParser.Flush | crates/earl-protocol-http/src/sse.rs:68-75 | flushing empties the buffer and yields the event of its trimmed text, or none when that is blank |
| Sse.FramingComposes | crates/earl-protocol-http/src/sse.rs:35-62 | feeding `a` and then `b` cuts the same blocks and leaves the same buffer as feeding `a + b`, when every line-feed blank line of the text comes before every CRLF blank line |
| Sse.AnyCutFramesAlike | crates/earl-protocol-http/src/sse.rs:35-62 | the same for a text fed in any number of pieces, from any buffer that holds no complete block |
| Sse.OneSeparatorKind | crates/earl-protocol-http/src/sse.rs:42-46 | a text with only one kind of blank line meets the condition on the order of separators |
| Sse.MixedSeparatorsShow | crates/earl-protocol-http/src/sse.rs:42-46 | for every text in which a line-feed blank line follows a CRLF blank line there is a cut that changes the blocks: the line-feed pair is looked for first |
| Sse.CutsInvisibleIff | crates/earl-protocol-http/src/sse.rs:35-62 | blocks and buffer are the same for all ways of cutting a text if and only if its line-feed blank lines all come before its CRLF blank lines |
| SseEncoding.EventsRoundTrip | crates/earl-protocol-http/src/sse.rs:77-111 | any list of events with one-line type and id and data without carriage returns, written as `event`, `id` and `data` lines, is read back exactly, empty data lines and leading spaces included, and nothing stays in the buffer |
| SseEncoding.EventsRoundTripInPieces | crates/earl-protocol-http/src/sse.rs:35-111 | the same when the written text arrives in arbitrary pieces |
| SseEncoding.TrailingEventIff | crates/earl-protocol-http/src/sse.rs:68-75 | when the last event is not closed by a blank line, feeding and flushing still give all events, the last one without the white space at its end, and so unchanged if and only if its last data line is empty or ends in no white space |
| SseCrlf.CrlfRoundTrip | crates/earl-protocol-http/src/sse.rs:43-60 | events written with CRLF line ends and blank lines are read back exactly too |
| SseCrlf.CrlfRoundTripInPieces | crates/earl-protocol-http/src/sse.rs:35-111 | and so they are in arbitrary pieces |
| SseMixed.MixedEventsDependOnCuts | crates/earl-protocol-http/src/sse.rs:42-46 | for any two events, the first closed by a CRLF blank line and the second by a line-feed pair: in two chunks both are sent, in one chunk at most one is |
| SseSpellings.SpelledField | crates/earl-protocol-http/src/sse.rs:88-96 | the value of a `data:`, `event:` or `id:` line is all that follows the colon, or all that follows the one space behind it |
| SseSpellings.EverySpellingReads | crates/earl-protocol-http/src/sse.rs:77-112 | any list of blocks, each line with or without the space in front of its value, with comments and unknown fields anywhere and repeated `event` and `id` lines of which the last counts, with either line end, is read as exactly what its lines mean, and nothing stays in the buffer |
| SseSpellings.EverySpellingReadsInPieces | crates/earl-protocol-http/src/sse.rs:35-112 | the same when the text arrives in arbitrary pieces |
| SseSpellings.UnclosedSpelling | crates/earl-protocol-http/src/sse.rs:68-75 | a last block in any spelling that no blank line closes is flushed as what its lines mean, whatever white space surrounds it |
| Utf8.ValidIffEncoded | crates/earl-protocol-http/src/executor.rs:363-366 | the byte syntax of RFC 3629, section 4, accepts exactly the byte strings that the encoding of section 3 produces |
| Utf8.DecodeEncode | crates/earl-protocol-http/src/executor.rs:371-372 | decoding returns the text that was encoded |
| Utf8.LongestValidPrefix | crates/earl-protocol-http/src/executor.rs:363-366 | no valid prefix is longer than `valid_up_to` |
| Utf8.AtMostThreePending | crates/earl-protocol-http/src/executor.rs:351-369 | in any prefix of a valid byte stream at most three bytes lie behind the longest valid prefix |
| Stream.BufferInvariant | crates/earl-protocol-http/src/executor.rs:350-375 | after any chunks the text fed so far is that of the longest valid prefix of the bytes received, and the buffer holds all other bytes |
| Stream.FewBytesHeldBack | crates/earl-protocol-http/src/executor.rs:350-358 | while a valid body arrives, however cut, the buffer holds at most three bytes |
| Stream.LeftoverIsNotText | crates/earl-protocol-http/src/executor.rs:424-441 | what the buffer holds at the end of the stream is empty or no text, so the leftover is never fed |
| Stream.ChunkingInvisible | crates/earl-protocol-http/src/executor.rs:345-457 | every cutting of a body into chunks sends the events of one `feed` of the whole decoded text followed by `flush` |
| Stream.AllEventsFit | crates/earl-protocol-http/src/executor.rs:376-457 | all data that a body sends, in any cutting, is together no longer than the body |
| Streaming.CountAndSend | crates/earl-protocol-http/src/executor.rs:377-399 | a chunk is delivered exactly when it keeps the saturating total within the limit and the receiver is there |
| Streaming.HandleChunk | crates/earl-protocol-http/src/executor.rs:350-399 | one chunk: the UTF-8 buffer ends as the bytes behind the longest valid prefix of all received, and what was sent and what is still to come together stay the whole stream |
| Streaming.FinishEvents | crates/earl-protocol-http/src/executor.rs:422-457 | the end of the stream delivers the flushed event, if it fits; the branch that feeds leftover text is dead |
| Streaming.StreamEvents | crates/earl-protocol-http/src/executor.rs:349-457 | for event streams: always a prefix of all events, always within the limit, and all of them when it finishes before an open receiver |
| Streaming.StreamChunks | crates/earl-protocol-http/src/executor.rs:400-419 | for other bodies: the same of the chunks themselves |
| Streaming.EventStreamTypes | crates/earl-protocol-http/src/executor.rs:331-335 | every content type that begins with `text/event-stream`, whatever parameters follow, sends one chunk for each event, with its data and no content type |
| Streaming.OtherTypes | crates/earl-protocol-http/src/executor.rs:400-419 | no content type, and any that does not begin so, sends the chunks of the body as they are, with that content type |
| Streaming.StreamBody | crates/earl-protocol-http/src/executor.rs:331-464 | every run, limit errors, broken connections and a dropped receiver included, delivers a prefix of the unlimited stream within `max_response_bytes`; it finishes with everything only if the body is whole and fits, and reports the limit only if it does not fit |
| Streaming.StreamWholeBody | crates/earl-protocol-http/src/executor.rs:331-457 | end to end: a whole body of at most `max_response_bytes` bytes with the separators in order, of a type that begins with `text/event-stream`, delivers exactly the data of the events of the body read at once, whatever the chunks and the parameters of the type |
| Streaming.ShortBodyFits | crates/earl-protocol-http/src/executor.rs:356-360 | a body no longer than the limit never trips it, however it is cut |
| StreamLimit.EveryCutFitsIff | crates/earl-protocol-http/src/executor.rs:349-399 | every cutting of an event stream stays within the limit if and only if the body is no longer than the limit |
| StreamLimit.SomeCutFitsIff | crates/earl-protocol-http/src/executor.rs:349-399 | some cutting stays within the limit if and only if what no cutting divides does: every character, the bytes at the end that are no text, and the data of all events together |
| StreamLimit.CutsDecideIff | crates/earl-protocol-http/src/executor.rs:356-360 | the cuts alone decide whether the limit trips exactly for bodies that are longer than the limit while those parts are not |
| StreamLimit.LimitDependsOnCuts | crates/earl-protocol-http/src/executor.rs:356-360 | there are such bodies for every limit but zero, and none for zero |
| StreamLimit.OtherBodiesFitIff | crates/earl-protocol-http/src/executor.rs:400-408 | for bodies whose type does not begin with `text/event-stream` the limit counts the bytes, whatever the cuts |
| Jwks.JwksCache.Check | src/mcp/auth.rs:245-262 | the check under the read lock answers the cached keys if and only if there are some, they are younger than the maximum age, and no key is named, or one of them is, or a named refresh lies less than 30 s back |
| Jwks.GetOrRefreshKeys | src/mcp/auth.rs:237-290 | one call alone: cached keys, or fetched keys and a cache that holds them, or stale keys after a failed fetch; the cache changes in the second case only |
| Jwks.RunKeepsInvariant | src/mcp/auth.rs:237-290 | in every run of any number of interleaved callers, with calls that begin within a write too, the cache holds what the last ended write installed, or the keys of the write under way; no write lies in the future, and every logged answer is justified by the writes before it |
| Jwks.CheckAnswersIff | src/mcp/auth.rs:243-262 | under every interleaving a call is answered without a fetch if and only if the last write installed some keys, less than the maximum age before the call started, and it names no key, or one of those, or a write for a named key ended less than 30 s before the call started; it then gets exactly those keys |
| Jwks.FallBackAnswersIff | src/mcp/auth.rs:274-288 | under every interleaving a call whose fetch failed gets the keys of the last write if and only if there are some and they were written less than the maximum age and 300 s before the call started |
| Jwks.ReturnsAsLogged | src/mcp/auth.rs:237-290 | under every interleaving every call that returned found its keys by the check, or found none and returned the keys that it wrote itself, for the key it named, or found none and returned what the fallback gave |
| Jwks.JitterOfProcess | src/mcp/auth.rs:239-242 | the jitter is 60 s and the process number modulo 31 in seconds |
| Jwks.NoFetchDuringCooldown | src/mcp/auth.rs:254-259 | under every interleaving, a call that starts less than 30 s after a refresh made for a named key goes on to fetch if and only if the last installed key list was empty |
| Jwks.CooldownHolds | src/mcp/auth.rs:237-273 | when no fetch returns an empty list, such a call never fetches |
| Jwks.CachedKeysAreRecent | src/mcp/auth.rs:274-281 | under every interleaving, keys served from the cache, fresh or stale, are not empty and were installed by an earlier write less than the maximum age plus 300 s before the call started |
| Jwks.FreshKeysAreFresh | src/mcp/auth.rs:245-253 | keys answered without a fetch are younger than the maximum age |
| Jwks.MissingKidOnlyInCooldown | src/mcp/auth.rs:254-259 | an answer that lacks the requested key is given only within 30 s of a refresh for a named key |
| Jwks.WritesAreOrdered | src/mcp/auth.rs:266-273 | writes never move the age of the cache backwards, in the order of the lock |
| Jwks.EmptyFetchDefeatsCooldown | src/mcp/auth.rs:266-273 | a fetch of an empty list makes the next call fetch again at once, cooldown or not |
| Redact.HexEncode | crates/earl-core/src/redact.rs:67-77 | the loop writes two digits for every byte, the high one first, from `0123456789abcdef` or its upper-case form |
| Redact.Redactor.New | crates/earl-core/src/redact.rs:11-39 | the list holds exactly the variants of the non-empty secrets, each once, longer ones first and equally long ones in byte order |
| Redact.RedactorDeterminedBySecrets | crates/earl-core/src/redact.rs:11-39 | order and repetition of the supplied secrets do not change the redactor |
| Redact.Redactor.Redact | crates/earl-core/src/redact.rs:41-47 | the loop replaces the variants one after the other, in list order |
| Redact.ReplaceKeepsRest | crates/earl-core/src/redact.rs:43-45 | replacing a variant keeps exactly the text between its leftmost occurrences: there are parts free of the variant, and with it behind them free of any earlier occurrence, that give the input when joined by it and the output when joined by the mark |
| Redact.ReplaceKeepsAbsent | crates/earl-core/src/redact.rs:41-47 | replacing one variant never brings back another that cannot overlap a mark |
| Redact.BracketFreeIsApart | crates/earl-core/src/redact.rs:41-47 | text without brackets that is no part of `REDACTED` overlaps no mark, whatever stands around it |
| Redact.RedactComplete | crates/earl-core/src/redact.rs:41-47 | no variant that stays apart from marks occurs anywhere in the result of all replacements |
| Redact.RedactIdempotent | crates/earl-core/src/redact.rs:41-47 | redacting twice is redacting once |
| Redact.CompleteIff | crates/earl-core/src/redact.rs:41-47 | for a list of variants without brackets, no variant ever shows in any redacted text if and only if none of them is part of `REDACTED` |
| Redact.Base64NeverRedacted | crates/earl-core/src/redact.rs:22-25 | no secret of six bytes or more is encoded as `REDACTED` in Base 64 |
| Redact.VariantsHarmless | crates/earl-core/src/redact.rs:22-32 | every encoding of a secret that has no brackets and is no part of `REDACTED` has no brackets and is no part of `REDACTED` either |
| Redact.RedactorCompleteIff | crates/earl-core/src/redact.rs:11-47 | for secrets without brackets, no secret and none of its encodings ever shows, if and only if no secret itself is part of `REDACTED`: the encodings never spoil it |
| Redact.CompleteWhenApart | crates/earl-core/src/redact.rs:11-47 | when every secret stays apart from marks, with brackets or without, no secret and none of its encodings ever shows |
| RedactEncodings.HexDecodesIff | crates/earl-core/src/redact.rs:67-77 | the hexadecimal form of some bytes is the one text in its letter case that reads as these bytes (section 8 of RFC 4648) |
| RedactEncodings.Base64DecodesIff | crates/earl-core/src/redact.rs:24-27 | the padded Base 64 form, standard or URL-safe, is the one text that reads as the bytes (sections 4 and 5 of RFC 4648) |
| RedactEncodings.FormDecodesIff | crates/earl-core/src/redact.rs:31-31 | the form encoding is the one text that reads as the bytes |
| RedactEncodings.VariantsIff | crates/earl-core/src/redact.rs:15-35 | looked for are exactly each non-empty secret and, from six bytes on, every text that decodes to it |
| RedactEncodings.ListOrder | crates/earl-core/src/redact.rs:37-38 | longer texts are replaced first, and of equally long ones the one with the smaller byte where they first differ |
| RedactEncodings.RedactFor | crates/earl-core/src/redact.rs:11-47 | for secrets that stay apart from marks the redacted text holds no secret and no text that decodes to a secret of six bytes or more; a text that held none is unchanged |
| Redact.RedactJsonKeepsShape | crates/earl-core/src/redact.rs:49-64 | redacting JSON changes nothing but the texts of strings; object keys stay as they are |
| Redact.RedactJsonStrings | crates/earl-core/src/redact.rs:49-64 | the same paths lead into the redacted value, and at each the string is the redaction of the string that was there |
| Redact.RedactJsonClean | crates/earl-core/src/redact.rs:49-64 | every string of the redacted value is free of every variant |
| Catalog.MergeInto | src/template/loader.rs:103-108 | the loop merges the categories as specified |
| Catalog.MergedCategories | src/template/loader.rs:103-108 | the merged categories are those of file and command, the file's own in front, nothing added twice, and the added ones in the order in which the command first names them |
| Catalog.LoadFileIntoCatalog | src/template/loader.rs:83-130 | a file that reads, parses and validates replaces exactly the entries it defines; any other fails the load |
| Catalog.LoadCatalogFromDirs | src/template/loader.rs:41-53 | the two loops build the catalog of the sorted global files and then the sorted local files, or fail when a directory or a file does |
| Catalog.LastFileWins | src/template/loader.rs:41-53 | a key has the entry of the last file in loading order that defines it, whatever the catalog held before |
| Catalog.BuildTakesLastFile | src/template/loader.rs:41-53 | a built catalog has exactly the keys that some file defines, each with the entry of the last defining file, local files after global ones |
| Catalog.BuiltEntry | src/template/loader.rs:41-130 | every entry of a build describes itself: key, provider, command, path, scope, template, environments and categories are those of one command of one file; a local file beats every global one, and within a scope the later path beats the earlier |
| Catalog.EveryCommandBuilt | src/template/loader.rs:83-130 | every command of every file has an entry under provider, dot and command |
| Catalog.PathIsFirstDifference | src/template/loader.rs:41-53 | paths are ordered by the first component in which they differ, components by their bytes, a parent before its children |
| Catalog.BuildsIff | src/template/loader.rs:41-53 | a build succeeds if and only if both directories can be listed and every file reads, parses and validates |
| Catalog.BuildsEqualIff | src/template/loader.rs:41-53 | two builds are equal if and only if the last file in loading order gives every key the same entry |
| TemplateCache.CollectFingerprint | src/template/cache.rs:41-57 | the fingerprint lists every template file of both directories once, in path order, with its modification time, or 0 when that cannot be had |
| TemplateCache.SameFingerprint | src/template/cache.rs:35-57 | two fingerprints are equal if and only if there are the same files and each has the same modification time, where one that cannot be had counts as 0 |
| TemplateCache.Cache.LoadCatalog | src/template/loader.rs:24-39 | a load returns the cached catalog when version and fingerprint match and else a fresh build, which is saved if it succeeds and writing does |
| TemplateCache.NoticedEditReloads | src/template/loader.rs:24-39 | when a template file has another modification time, or is gone, or is new, the fingerprint is another and the next load returns a fresh build |
| TemplateCache.StoredWasBuilt | src/template/cache.rs:61-96 | in every run of edits and loads a usable cache file holds what a fresh build of some state with its fingerprint returned |
| TemplateCache.CoherentIff | src/template/loader.rs:24-39 | over all runs of edits and loads, with saves that may fail, every load returns what a fresh build returns, if and only if among the states that occur, wherever the same files have the same modification times and all parse in one state, they all parse in the other and the last file in loading order gives every key the same entry |
| CacheCoherence.FixedDirectoriesCohere | src/template/loader.rs:24-53 | when every path belongs to one of the two directories, the same in all states, and files with the same stamps parse alike, every load of every run returns what a fresh build returns |
| CacheCoherence.SharedDirectoryGoesStale | src/template/cache.rs:41-57 | a load whose local directory is the global one, after a load without local templates, has the same fingerprint and returns the first catalog instead of its own, if and only if any file defines a command: the entries should be local now |
| CacheCoherence.EditUnderOneStampGoesStale | src/template/cache.rs:35-40 | any template file can be edited under one modification time so that the next load returns the catalog of before the edit |
| TemplateCache.StaleLoad | src/template/cache.rs:61-74 | two states with equal fingerprints: the second load returns what the first built |
| TemplateCache.ContentsAreNotStamped | src/template/cache.rs:41-57 | changing what files contain, or what they include by `file()`, without changing a stamp leaves the fingerprint as it is |
| Stdio.StdioReader.ReadStdioFrame | src/mcp/mod.rs:959-997 | the nested loops read the first message of the stream, skip blank lines, and leave exactly the bytes behind it, or fail as specified |
| Stdio.StdioReader.ReadHeaders | src/mcp/mod.rs:978-987 | headers end at the first empty line; the end of the stream before that is an error |
| Stdio.StdioWriter.WriteStdioFrame | src/mcp/mod.rs:1017-1028 | writing appends one frame |
| StdioRoundTrip.HeaderParsed | src/mcp/mod.rs:999-1015 | the header line that is written for a length is recognised and read as that length |
| StdioRoundTrip.FrameRead | src/mcp/mod.rs:959-1028 | a written frame of up to 10 MiB is read back whole, whatever bytes it has and whatever follows |
| StdioRoundTrip.JsonLineIsMessage | src/mcp/mod.rs:994-995 | a JSON object or array on a line of its own is never taken for a header or a blank line |
| StdioRoundTrip.FramesRoundTrip | src/mcp/mod.rs:959-1028 | reading any written frames of up to 10 MiB returns exactly their bodies and then the end of the stream |
| StdioRoundTrip.ReadAllUndoesRender | src/mcp/mod.rs:959-1028 | reading any sequence of written frames, blank lines and newline-delimited messages returns exactly the bodies and messages and then the end of the stream |
| StdioSpellings.NumberIff | src/mcp/mod.rs:1009-1012 | a length is an optional plus sign, any zeros and the decimal number, below 2 to the 64, and nothing else |
| StdioSpellings.SpelledFrameRead | src/mcp/mod.rs:959-1015 | whatever the letter case of the header name, the white space around name and number, the sign and zeros, the other headers and the line ends: a frame is refused above 10 MiB, cut off when too few bytes follow, and else read to exactly its length |
| StdioSpellings.HeadersCutOffRead | src/mcp/mod.rs:978-984 | a stream that ends before the empty line fails so, in any spelling |
| StdioSpellings.BadLengthRead | src/mcp/mod.rs:1009-1012 | a `Content-Length` whose value is no number of 64 bits is refused, whatever follows |
| StdioSpellings.BadTextRead | src/mcp/mod.rs:962-962 | a first line that is no UTF-8 is refused |
| StdioSpellings.LastLineRead | src/mcp/mod.rs:994-995 | a message on the last line needs no line feed |
| Tokeniser.TokeniserState.ProcessChar | web/src/components/cli-import.tsx:43-69 | one character changes the state as specified |
| Tokeniser.Tokenise | web/src/components/cli-import.tsx:76-100 | the loop returns the tokens of the specification, or its error |
| Tokeniser.QuotedDenotes | src/web/mod.rs:441-449 | what `shell_quote` prints for a text without backslashes is read as that text, from any state outside quotes with no unfinished token |
| Tokeniser.TokensOfQuoted | web/src/components/cli-import.tsx:76-100 | quoted texts without backslashes, joined by spaces, come back in order, except that empty ones are lost |
| Tokeniser.LagSpoils | web/src/components/cli-import.tsx:48-51 | behind a backslash in a quoted text the token being read lags behind the text and is never completed |
| Tokeniser.TokeniseUndoesQuoting | web/src/components/cli-import.tsx:43-100 | for every list of texts, tokenising the space-joined `shell_quote` outputs gives the list back if and only if every text is non-empty and free of backslashes |
| Tokeniser.QuotedWhenNeeded | src/web/mod.rs:441-449 | `shell_quote` changes exactly the empty text and the texts with white space or quotes |
| CliLines.LineTokens | web/src/components/cli-import.tsx:43-100 | any line of words, each made of bare, single-quoted and double-quoted pieces with escaped characters, with spaces and tabs between them, is read as what its words say, without the empty ones |
| CliLines.OpenQuoteFails | web/src/components/cli-import.tsx:92-94 | a quote that is not closed fails, whatever stands before and in it |
| CliLines.LastBackslashFails | web/src/components/cli-import.tsx:89-91 | a backslash at the end fails, outside quotes and in either kind |
| CliImport.ParseFlags | web/src/components/cli-import.tsx:115-153 | the loop assigns the flags in order, with the three forms and the two errors of the specification |
| CliImport.ParseCliCommand | web/src/components/cli-import.tsx:163-195 | trimming, tokenising, stripping `earl call`, finding the command and parsing flags, or the first error |
| CliLines.CommandWithArgs | web/src/components/cli-import.tsx:102-195 | behind no prefix, `earl` or `earl call`, a command with any dropped words behind it and any arguments, separate, with an equals sign or alone, is read as that command and the last value of each argument |
| CliLines.LastArgWins | web/src/components/cli-import.tsx:119-152 | a name is assigned if and only if some argument has it and it is not `__proto__`, and its value is that of the last such argument, `true` for one alone |
| CliLines.StrayTokens | web/src/components/cli-import.tsx:125-132 | a word behind the first flag that is no value of a flag fails as unexpected, and `--` fails as an empty name, wherever they stand |
| CliLines.NoCommandFails | web/src/components/cli-import.tsx:170-191 | without a word in front of the flags there is no command |
| CliLines.SurroundedLine | web/src/components/cli-import.tsx:163-170 | white space around a line changes nothing |
| CliLines.TypedCommandRead | web/src/components/cli-import.tsx:43-195 | from the typed characters to the command: every spelling of every command line |
| ExampleCli.ValueDenotes | src/web/mod.rs:419-439 | each printed default or placeholder is read as the text it stands for |
| ExampleCli.LineTokens | src/web/mod.rs:394-417 | without backslashes in the texts, the tokens of an example line are `earl`, `call`, the key, and each name followed by its text unless that is empty |
| ExampleCli.FlagsLose | web/src/components/cli-import.tsx:115-153 | if some text is empty or starts with `--`, parsing fails or some name gets another value |
| ExampleCli.EqualsForm | web/src/components/cli-import.tsx:134-138 | written `--name=text`, any text at all is taken as it is, empty ones and ones that look like flags too |
| CliCounts.TokensCount | web/src/components/cli-import.tsx:43-100 | the tokens hold no character more often than the line, and a backslash once for each that directly follows an escaping one |
| CliCounts.ParsedHolds | web/src/components/cli-import.tsx:115-195 | a parsed command, its names and their values together hold no character more often than the tokens |
| ExampleCliExact.LineThrifty | src/web/mod.rs:394-449 | of the backslashes in the texts at most half come through the tokeniser, wherever misread quotes put them |
| ExampleCliExact.ExampleLineReadsBack | web/src/components/cli-import.tsx:163-195 | for a plain key and plain distinct names the playground recovers the key and exactly the names with their texts, if and only if no text is empty, starts with `--` or has a backslash, and the line does not end in U+FEFF, which JavaScript trims and `shell_quote` does not quote |
| Accessibility.Renderer.RenderNodes | crates/earl-protocol-browser/src/accessibility.rs:28-52 | the recursive loop with its shared counter appends the next nodes in pre-order until the limit is reached, and nothing else |
| Accessibility.RenderAxTree | crates/earl-protocol-browser/src/accessibility.rs:15-26 | text and references are exactly those of the first `min(max, size)` nodes in pre-order, and the notice appears from `size == max` on |
| Accessibility.RenderedLine | crates/earl-protocol-browser/src/accessibility.rs:36-47 | line `i` of the text is two spaces for each level, then role, quoted name and reference of the `i`-th node, for names without line feeds |
| Accessibility.LinesTellTrees | crates/earl-protocol-browser/src/accessibility.rs:28-52 | lines and depths in rendering order determine the trees: reading them back by depth returns exactly the trees |
| Accessibility.RefsResolve | crates/earl-protocol-browser/src/accessibility.rs:41-42 | exactly the rendered nodes have references, and each reference leads to its own node id |
| Accessibility.NoticeIsFalseIff | crates/earl-protocol-browser/src/accessibility.rs:20-24 | the notice of a truncation that did not happen appears exactly when the tree has as many nodes as the limit |
| Snapshot.StepSnapshot | crates/earl-protocol-browser/src/steps.rs:512-596 | indexing, root selection, tree building and rendering with the limit of 5000, for any node list, cyclic ones included |
| Snapshot.SnapshotLines | crates/earl-protocol-browser/src/steps.rs:528-588 | the lines of the built trees are those of the visited nodes, in order, each at its depth |
| Snapshot.SnapshotConserves | crates/earl-protocol-browser/src/steps.rs:528-588 | in a well-formed forest every node that is no deeper than level 80 and has no ignored ancestor-or-self is built exactly once, and no other node is |
| Snapshot.VisitLineMeans | crates/earl-protocol-browser/src/steps.rs:540-559 | what is shown of a node: the text of its role, else `unknown`, the text of its name, else nothing, and its number with 2 to the 64 added when negative, 0 when it has none |
| Snapshot.IndexedHas | crates/earl-protocol-browser/src/steps.rs:518-520 | of several nodes with one id the last is indexed |
| Snapshot.TreeOfNode | crates/earl-protocol-browser/src/steps.rs:528-576 | an id has a tree if and only if it is known, not ignored and no deeper than level 80; the children of the tree are the trees of the ids that the node names |
| Snapshot.TreesInOrder | crates/earl-protocol-browser/src/steps.rs:561-568 | trees stand in the order of their ids |
| Snapshot.VisitDepths | crates/earl-protocol-browser/src/steps.rs:561-568 | every node is built at its own level |
| Secrets.SecretsContext.InsertDottedKey | src/protocol/builder.rs:546-569 | the walk through mutable references has the effect of inserting the value at the path of the non-empty parts |
| Secrets.PathOfJoined | src/protocol/builder.rs:547-547 | the path of names joined by dots is those names, without the empty ones |
| Secrets.NamesKept | src/protocol/builder.rs:547-547 | the empty names, and they alone, are left out of a path, and the others keep their order |
| Secrets.DotsNameNothing | src/protocol/builder.rs:548-551 | a key of dots alone inserts nothing |
| Secrets.LookupInserted | src/protocol/builder.rs:546-569 | the inserted value is found at its path, whatever was there before |
| Secrets.LookupElsewhere | src/protocol/builder.rs:546-569 | what lies at a path that neither leads to nor through the inserted one is unchanged |
| Secrets.CommuteIff | src/protocol/builder.rs:546-569 | two string insertions can be swapped if and only if neither path leads through the other, or they are the same insertion |
| Secrets.AllFoundIff | src/protocol/builder.rs:546-569 | inserted strings are all found again if and only if no path leads strictly through another and equal paths carry equal strings |
| Secrets.OrderIsInvisible | src/protocol/builder.rs:134-166 | entries whose paths do not lead through each other build the same map in any order |
| Secrets.LoadSecrets | src/protocol/builder.rs:131-166 | the two loops load the declared keys and then the environment's other keys, in order, up to the first that cannot be had |
| Secrets.FirstFailure | src/protocol/builder.rs:134-166 | loading succeeds if and only if every key can be had, and otherwise fails as the first one that cannot |
| Secrets.KeysAre | src/protocol/builder.rs:134-166 | loaded are the declared keys and then those of the environment that are not declared, in their order |
| Secrets.LoadedEntries | src/protocol/builder.rs:134-166 | the loaded context is exactly the insertion of every key's own secret, and every secret is noted once per key |
| Secrets.ReachableSecretsAreRedacted | src/protocol/builder.rs:131-166 | no string in the loaded context occurs in a text redacted with the noted values, provided it stays apart from marks |
| Policy.GlobMeaning | src/mcp/policy.rs:71-107 | the backtracking matcher accepts if and only if dot-free words for the stars turn the pattern into the value, ignoring ASCII case; a lone star accepts everything, and nothing else is accepted beyond 256 bytes |
| Policy.SameIgnoringCase | src/mcp/policy.rs:71-107 | the case of ASCII letters is all that is ignored |
| Policy.MatchKeepsDots | src/mcp/policy.rs:87-107 | pattern and matched value have equally many dots |
| Policy.Evaluate | src/mcp/policy.rs:18-54 | the loop with early return allows if and only if some rule with a matching subject pattern, a matching tool pattern and no modes or this mode allows, and every such rule does |
| Policy.OrderFree | src/mcp/policy.rs:18-54 | the decision does not depend on order or repetition of the rules |
| Policy.OneRuleMore | src/mcp/policy.rs:12-17 | an added applicable denial always denies, an added applicable allowance allows unless a rule denies, any other rule changes nothing |
| Access.ListingAgreesIff | src/mcp/mod.rs:405-456 | full mode lists a tool exactly when calling it by its key reaches it, if and only if the key is lower case or the tool is not visible |
| Access.ListingIsCalling | src/mcp/mod.rs:696-715 | with lower-case keys a name in any spelling passes the call gates if and only if a listed tool has that name in lower case |
| Access.CallIff | src/mcp/mod.rs:405-456 | a call of a known tool in any spelling is let through if and only if it reads or confirmations are off or the caller is known, and the policies permit a known caller; otherwise access is denied |
| Access.ListedIff | src/mcp/mod.rs:696-715 | full mode lists exactly the tools that the policies permit a known caller, or that an unknown one may use without confirmation |
| Access.ListedInOrder | src/mcp/mod.rs:696-715 | the list is in the order of the keys |
| Access.DiscoverySearch | src/mcp/mod.rs:486-556 | a search returns candidates only, best first, at most the clamped limit, and leaves out only candidates that rank behind all returned ones |
| Access.CandidateIff | src/mcp/mod.rs:500-535 | candidates are exactly the visible tools with a positive score whose mode is the trimmed mode filter and whose provider and some category are the trimmed filters, ignoring case, where a filter is given and not blank |
| Access.SearchedIsCallable | src/mcp/mod.rs:592-623 | with lower-case keys every tool that a search returns passes the gates of the discovery call |
| Retry.ReadResponseBodyLimited | crates/earl-protocol-http/src/executor.rs:208-220 | the loop collects the chunks as specified |
| Retry.LimitedIff | crates/earl-protocol-http/src/executor.rs:208-220 | the whole body comes through if and only if it arrives whole and is no longer than the limit (the largest `usize` limits nothing) |
| Retry.ExecuteHttpOnce | crates/earl-protocol-http/src/executor.rs:14-96 | the redirect loop acts on the outside and ends as specified, for outsides that may answer each time differently |
| Retry.ExecutePreparedRequest | src/protocol/executor.rs:44-128 | the retry loop around it does too |
| Retry.HopsTrace | crates/earl-protocol-http/src/executor.rs:28-92 | one attempt sends at most one request a hop, never sleeps, and keeps every request checked, validated and called for |
| Retry.HopsNeverRunOut | crates/earl-protocol-http/src/executor.rs:95-95 | the error behind the redirect loop is never returned |
| Retry.AttemptsNeverRunOut | src/protocol/executor.rs:128-128 | the error behind the retry loop is never returned, and the remembered last error never matters |
| Retry.EveryRun | src/protocol/executor.rs:44-128 | in every trace each request directly follows the allowlist check and a non-empty validation of its own URL and is the original or the one the last redirect calls for; there are at most `attempts * (max_redirect_hops + 1)` requests; there are at most `n - 1` pauses, together at most `base * n * (n - 1) / 2` long, for `n` attempts |
| Retry.GivesUpLast | src/protocol/executor.rs:97-125 | a run returns the answer of its last attempt, which gave the rest of the trace behind the last pause; it pauses less than `attempts - 1` times only when that attempt got a response whose status is not to be retried |
| Retry.EmptyGetStays | crates/earl-protocol-http/src/executor.rs:66-72 | within one attempt of any trace, every request behind an empty GET is an empty GET |
| Retry.OnlyOriginalOrGet | crates/earl-protocol-http/src/executor.rs:66-72 | method and body of every request of every trace are the original ones or those of an empty GET |
| RetryTraces.RedirectIsFollowed | crates/earl-protocol-http/src/executor.rs:44-76 | two requests in a row within an attempt of any trace: the first was answered with a status from 300 to 399 while redirects are followed, the second goes where the `Location` leads, as an empty GET after 303 and after 301 or 302 to a POST, and otherwise with the same method and body |
| RetryTraces.AttemptStartsOver | src/protocol/executor.rs:86-95 | the first request of every attempt is the original one |
| RetryTraces.AttemptAnswers | crates/earl-protocol-http/src/executor.rs:28-96 | an attempt ends as its last event says: with the whole body, status, content type and URL of the last response when that is no redirection to follow, or with the error that belongs to that event |
| RetryTraces.HopsAreCounted | crates/earl-protocol-http/src/executor.rs:44-49 | an attempt gives up on redirects only behind `max_redirect_hops + 1` requests |
| RetryTraces.EveryPause | src/protocol/executor.rs:97-125 | every pause of every trace follows an attempt that failed or got a status to retry, while attempts are left; behind the `n`-th attempt it takes `n` times the base, as a 32-bit factor, at most the longest duration |
| Expr.ParsesWhatIsWritten | src/template/parser.rs:206-242 | the mutually recursive parser accepts exactly the grammar: identifier, parentheses around a nested call or a literal between its outermost quotes, white space and a `${...}` wrapper around any call |
| Expr.ParseUndoesPrint | src/template/parser.rs:206-242 | every call with identifier names and arbitrary literals is parsed back from its printed form, bare or wrapped, with any white space around it |
| Expr.AcceptedReparses | src/template/parser.rs:206-242 | whatever is accepted, printed again, is accepted as the same expression |

## Left out

- Sockets, TLS, DNS, HTTP clients, gRPC, SQL, shell and browser protocols: their results are parameters.
- minijinja rendering, the HCL library, rkyv and serde: files parse to values by a parameter.
- JWT signatures, OAuth, keychains and cloud secret resolvers.
- The redirect loop of the streaming executor (crates/earl-protocol-http/src/executor.rs:267-322): it is the
  loop of `Retry.ExecuteHttpOnce` with the same branches, modelled there once.
- A memory bound on the buffer of the event parser: there is none in the code.
- Parts of the event stream format that the code does not handle: bare carriage returns, byte order marks,
  `retry`, last event ids; and `flush` emits a trimmed trailing event that the standard discards.
- Rendering of `vars`, which are noted for redaction too (src/protocol/builder.rs:502-544).
- Ranking scores: the score is a parameter, over `real` instead of `f32`.
- Texts of error messages, audit logs and JSON responses; errors are distinguished by kind.
- Evaluation of template functions and their place in JSON (src/template/parser.rs:169-191 and 244-281).
- Mutable references into nested maps are a place in one map: `Secrets.SecretsContext` holds the root and
  the walk edits it at a prefix of the path.
- Sorting a vector without equal elements is insertion sort of its set.
- TemplateCache.CollectFingerprint: sorting by path and dropping repeated paths is modelled as sorting the set
  of stamps, because both readings of a repeated path are taken to agree.
- TemplateCache.CoherentIff: files that change between fingerprinting and parsing within one load are not
  modelled; a load sees one state.
- Redact.CompleteWhenApart: for secrets with brackets the condition is sufficient and not exact, because a
  later variant may hide what an earlier one leaves beside a mark; the exact condition is proved for secrets
  without brackets in `Redact.RedactorCompleteIff`.
- Scheduling: the steps of one call for keys are atomic as the locks make them, and the order in which waiting
  callers get a lock is arbitrary.
- ExampleCliExact.ExampleLineReadsBack: keys and names that need quotes are excluded, because the example
  line does not quote them.
- RedactEncodings.RedactFor: other spellings of an encoding, as hexadecimal in mixed case, Base 64 without
  padding or percent signs in front of bytes that need none, are not looked for, so nothing is said of them.
- SseSpellings.EverySpellingReads: values with carriage returns inside are left out; the code keeps them and the
  standard ends the line there.
- Streaming.StreamBody: which of several errors is reported when more than one applies is left open.
