# Verified model of the urban-reporting HTTP server

A Dafny model of the parts of this C server that are algorithms or protocols of their own, with proofs of what
they promise. `dafny verify dfyconfig.toml` checks everything.

| files | what they hold |
|---|---|
| `ChunkedDecoding`, `ChunkedCalls`, `ChunkedEncoding`, `ChunkedLanguage`, `ChunkedDecoder` | the resumable chunked-body decoder: a step function per octet and its runs, sequences of calls, the printer they undo, that they take nothing else, and the in-place decoder that refines them |
| `HttpGrammar`, `HttpParser`, `HttpStability`, `HttpIncremental` | the three-verdict message parser: its functions, its loops, why its verdicts are stable, and what becomes of them in the incremental call |
| `HttpSpelling`, `HttpMessages` | the message syntax as a printer, which the parser undoes and which prints all it accepts |
| `HttpResponse`, `HttpRoundTrip`, `HttpRendering` | the response printer and what a client reads in what it printed |
| `HttpRequests`, `HttpNumbers`, `HttpGate` | the request-complete gate, the numbers it reads, and the octet at which it opens |
| `Primes`, `HashTable`, `Snapshot` | the hash table, pointers and all, its prime capacities, and its trip through a file |
| `Windows`, `RateLimiter` | what the two counters of an address come to, and the per-address limiter on top of that table |
| `Templates`, `TemplatePrinting` | precompiled templates against direct substitution, and against the literals and values a source is printed from |
| `Reports`, `ReportCache`, `ReportHandlers`, `ReportServer` | report rows and queries, the JSON cache, the handlers as steps of one state machine, and the array loops and handlers that refine them |
| `ReportLists`, `ReportOutcomes` | what the lists hold and what each handler leaves behind, column by column |
| `SlabAllocator` | chunks, blocks and free lists, pointers and all |
| `Connections`, `ConnectionFates`, `ConnectionHandler`, `EventLoop`, `ClientPool` | the connection protocol over all runs; which connections stay open; the callbacks on real contexts and the linked lists; the loop over a heap of them, which refines the protocol event by event; and its memory, taken from the slab pool and given back |
| `Bytes`, `Options`, `Sequences`, `LinkedLists` | octets; optional values; sequences without repetition; linked lists as sequences, one or several |

Loops and objects that change in place are methods and classes, each tied by its `ensures` to a function; the
properties are lemmas about those functions. Octets are integers below 256, buffers are arrays where the code
writes to them and sequences where it only reads.

What a function computes is also said without it: what a parser or decoder accepts by the printer it undoes
(`HttpMessages`, `ChunkedLanguage`, `TemplatePrinting`), what a printer writes by the server's own readers (`HttpRendering`),
what the gate waits for by the octet at which it opens (`HttpGate`), what lists and handlers do by columns (`ReportLists`,
`ReportOutcomes`), and what the callbacks do by the connections they leave open (`ConnectionFates`).

## What the environment is taken to do

libuv reads at most what it was offered, never on a stopped or closed handle, fires an armed timer at most once,
calls back every close exactly once, and the socket's only after its pending writes; a write it accepts is
called back. Starting a read or a timer on a closing handle does nothing. The database reports no errors. The
answers of the geometry table, of the checks on passwords and new usernames, and of the clock are parameters of the
steps; the JSON text of a list is any function of the ordered rows, the empty text standing for one that does
not fit. Of the hash function nothing is assumed but that it is a function of key and seed.

## Where the code and its documentation part ways

The model follows the code.

- `next_prime(2)` is 3 (hash_table.c:374-379); README.md of the repository speaks of the next prime >= twice the capacity.
- The limiter is described as a window weighted by elapsed time, but with a clock of whole seconds the elapsed
  part is always 0 after rotation (rate_limiter.c:51-61), so the limit is on two consecutive active seconds together.
- report.h:190 says an operator's active list holds reports in progress; the query takes assigned ones too (report.c:356-363).
- A context whose accept failed is closed and then unlinked although it was never linked (connection_handler.c:110-113),
  outside the precondition at client_manager.h:80. `Connections.ListKeptIff` and `Connections.ListOkIff` say exactly when the list survives,
  `Connections.AcceptFailureLosesTheList` shows it lost. From then on several pointer chains may exist, of which
  the head pointer leads to one; the model follows all of them.
- The incremental parse of a header block on its own (picohttpparser.c:500-519) waits for more when the
  block is empty, although a fresh parse accepts it, unless a line end comes next or an empty line further on;
  `HttpIncremental.EmptyBlockWaits` shows it on CR LF, `HttpIncremental.IncrementalHeaders` has the exact condition.
- The incremental parse of a request or a response agrees with a fresh one on every success, but because it first
  looks for an empty line (picohttpparser.c:415-419) its refusals may come later or earlier: -2 where a fresh parse
  already says -1 (`HttpIncremental.WaitsWhereFreshRefuses`), and -1 where a fresh parse still says -2
  (`HttpIncremental.RefusesWhereFreshWaits`). `HttpIncremental.IncrementalRequest` says exactly when the two
  agree, `HttpIncremental.RefusedRequestStays` that a refusal is never taken back.

## Model

| member | source | states |
|---|---|---|
| ChunkedDecoding.SizeNeverWraps | picohttpparser.c:578-583 | While a chunk size is read, the accumulator stays below 16 to the number of digits, so reducing it to 64 bits never changes it |
| ChunkedDecoding.StepKeepsValid | picohttpparser.c:552-683 | Every octet, in every state, leads to a state the decoder may be in and emits at most one octet |
| ChunkedDecoding.RunAppend | picohttpparser.c:552-683 | A run over a + b stops inside a exactly as the run over a did, or carries on with b from the state the run over a left |
| ChunkedCalls.CallKeepsBalance | picohttpparser.c:685-698 | One call returns no more octets than it was given, and when it asks for more, octets read = overhead + octets emitted still holds, modulo 2 to the 64 |
| ChunkedCalls.FeedBalanced | picohttpparser.c:685-698 | At every return that asks for more, over any sequence of calls, octets read = framing overhead + octets emitted so far, modulo 2 to the 64 |
| ChunkedCalls.CutIndependence | picohttpparser.c:545-698 | For every way of cutting a stream into calls: unless the overhead guard trips, output, verdict and rest are those of one uncut run; if it trips, the calls report an error after a prefix of that output |
| ChunkedCalls.FramingMonotone | picohttpparser.c:691-696 | Framing only grows along a stream, and a decided run is not changed by what follows |
| ChunkedCalls.UnderLimitNeverTrips | picohttpparser.c:691-696 | A stream with under 100 KiB of framing never trips the guard, however it is cut and however long it is; its overhead is then counted exactly although the total of octets read may wrap |
| ChunkedCalls.GuardExactly | picohttpparser.c:691-696 | A stream still incomplete at the end of a call is given up if and only if at least 100 KiB of it were framing and fewer than a quarter of its octets data |
| ChunkedCalls.CutsDoNotMatter | picohttpparser.c:545-698 | With under 100 KiB of framing every cutting gives the decoded octets, the verdict and the undecoded rest of one call on the whole stream |
| ChunkedEncoding.DecodeUndoesEncode | picohttpparser.c:545-698 | Decoding any message of the grammar of section 4.1 of RFC 7230 (sizes in large or small digits, leading zeros, extensions, trailers, with the CRs in trailers the decoder lets pass) followed by any suffix gives exactly its data, leaves exactly the suffix and returns its length |
| ChunkedEncoding.DecodeUndoesEncodeInPieces | picohttpparser.c:545-698 | The same through any sequence of calls while framing stays under the limit |
| ChunkedEncoding.EveryCutIsEncodable | picohttpparser.c:554-584 | Any cut of any data into non-empty chunks below 2 to the 64 is a message of that grammar |
| ChunkedLanguage.DoneIsMessage | picohttpparser.c:552-683 | Whatever the decoder finishes on is a message of that grammar, and what it emitted is that message's data |
| ChunkedLanguage.Finishes | picohttpparser.c:552-683 | From every state the decoder may be in some octets lead to the end of a message |
| ChunkedLanguage.VerdictExactly | picohttpparser.c:545-698 | The decoder is done if and only if the stream starts with a message, asks for more if and only if it does not but can be continued to one, and reports an error otherwise |
| ChunkedDecoder.MoveDown | picohttpparser.c:624-632 | An overlapping move to a lower position copies the old octets and touches nothing else |
| ChunkedDecoder.Compact | picohttpparser.c:687-690 | The undecoded rest ends up right behind the decoded octets |
| ChunkedDecoder.Decoder.ScanSize | picohttpparser.c:554-586 | The loop over the size digits computes the run of the step function from where it stands |
| ChunkedDecoder.Decoder.ScanExt | picohttpparser.c:588-601 | The loop over chunk extensions computes the run, and refuses a bare LF |
| ChunkedDecoder.Decoder.ScanHeaderLF | picohttpparser.c:603-619 | The LF of a chunk header leads to data, trailers or completion as the run does |
| ChunkedDecoder.Decoder.CopyData | picohttpparser.c:621-637 | Moving a whole block of chunk data at once is the run over its octets one by one |
| ChunkedDecoder.Decoder.ScanDataEnd | picohttpparser.c:639-658 | The CR LF behind chunk data, with fallthrough, computes the run |
| ChunkedDecoder.Decoder.ScanTrailerHead | picohttpparser.c:659-668 | The start of a trailer line computes the run |
| ChunkedDecoder.Decoder.ScanTrailerMiddle | picohttpparser.c:670-679 | The rest of a trailer line computes the run |
| ChunkedDecoder.RunBlock | picohttpparser.c:621-637 | The run over n octets of chunk data emits them all and lowers the count by n |
| ChunkedDecoder.Decoder.Loop | picohttpparser.c:552-683 | The state switch computes the run of the whole buffer, never writes past what it has read, and leaves the unread part as it was |
| ChunkedDecoder.Decoder.Decode | picohttpparser.c:545-698 | One in-place call returns, decodes, compacts and leaves every field exactly as the pure call does, whatever the verdict; octets past the buffer end are untouched |
| HttpParser.ParseToken | picohttpparser.c:245-277 | The token loop computes the token grammar: position and slice, or -1, or -2 |
| HttpParser.AdvanceToken | picohttpparser.c:71-94 | The path loop stops at the first space, refuses control octets, or asks for more |
| HttpParser.ScanEight | picohttpparser.c:147-170 | The scan unrolled eight times agrees with the simple octet loop: it stops at the same control octet, or with fewer than eight octets left |
| HttpParser.ScanSimple | picohttpparser.c:172-179 | The simple loop finds the first octet that ends line text |
| HttpParser.GetTokenToEol | picohttpparser.c:134-195 | Line text up to CR LF or LF, or the verdict |
| HttpParser.TrimTrailing | picohttpparser.c:341-350 | Trailing blanks of a value are dropped |
| HttpParser.ParseHeaderLine | picohttpparser.c:315-350 | One header line, or a continuation line without a name |
| HttpParser.ExpectLineEnd | picohttpparser.c:388-396 | CR LF or LF; anything else is malformed |
| HttpParser.ParseHeaders | picohttpparser.c:298-353 | The array is filled from the front with exactly the headers of the grammar, at most max of them; one more is malformed |
| HttpParser.ParseVersion | picohttpparser.c:280-296 | The version, undecided before nine octets are there |
| HttpParser.ParseTarget | picohttpparser.c:372-380 | The path with the spaces around it |
| HttpParser.ParseRequestLine | picohttpparser.c:369-396 | Verb, path and version in the order of the code's verdicts |
| HttpParser.IsComplete | picohttpparser.c:197-223 | The rescan from three octets back computes the empty-line scan |
| HttpParser.ParseRequest | picohttpparser.c:401-427 | The imperative parser with its caller's array computes the request grammar, fresh or incremental |
| HttpParser.ParseStatus | picohttpparser.c:445-450 | Three digits, undecided before four octets are there |
| HttpParser.ParseReason | picohttpparser.c:452-469 | The reason phrase without its leading spaces; garbage behind the code is malformed |
| HttpParser.ParseStatusLine | picohttpparser.c:432-469 | Version, code and reason |
| HttpParser.ParseResponse | picohttpparser.c:474-498 | The imperative parser computes the response grammar, fresh or incremental |
| HttpSpelling.NameCharIsToken | picohttpparser.c:96-105 | The characters of a name are letters, digits and the fifteen others of section 3.2.6 of RFC 7230 |
| HttpSpelling.LinesFound | picohttpparser.c:298-353 | Any printed header lines (blanks around values, continuation lines, CR LF or LF) and the empty line behind them are parsed back, every name and value in order; one line more than there is room for is malformed |
| HttpSpelling.LinesAre | picohttpparser.c:298-353 | Whatever is parsed as header lines can be printed so |
| HttpMessages.SpelledIsParsed | picohttpparser.c:355-427 | Any request printed from a verb, a path, a version and header lines, with an empty line before it and any spaces between the words, whatever follows, is parsed to that verb, path, version, those headers in order and the position behind it |
| HttpMessages.ParsedIsSpelled | picohttpparser.c:355-427 | Whatever is parsed as a request is the print of the verb, path, version and headers it was parsed to |
| HttpMessages.WrittenIsParsed | picohttpparser.c:429-498 | The same for responses: version, status, reason phrase and headers |
| HttpMessages.ParsedIsWritten | picohttpparser.c:429-498 | Whatever is parsed as a response is the print of what it was parsed to |
| HttpStability.RequestStable | picohttpparser.c:401-427 | A request that parsed, or was refused, gives the same verdict and the same slices for every extension of the buffer |
| HttpStability.RequestLocal | picohttpparser.c:401-427 | Success depends on nothing past the octets consumed |
| HttpStability.RequestSlicesInside | picohttpparser.c:244-399 | Every header slice of a parsed request lies inside the octets consumed and every name is non-empty |
| HttpStability.ResponseStable | picohttpparser.c:474-498 | The same stability for responses |
| HttpStability.ResponseLocal | picohttpparser.c:474-498 | Success of a response parse depends on nothing past the octets consumed |
| HttpStability.ResponseSlicesInside | picohttpparser.c:429-472 | Every header slice of a parsed response lies inside the octets consumed |
| HttpIncremental.EmptyLineFound | picohttpparser.c:197-223 | From any position before it, the scan finds the empty line that ends a well-formed head, or one earlier |
| HttpIncremental.ScanMeans | picohttpparser.c:197-223 | The scan succeeds behind an empty line with every CR before it paired, refuses at a CR without its LF, and asks for more only when there is no such empty line |
| HttpIncremental.RescansThreeBack | picohttpparser.c:197-202 | A CR without LF three octets before what was seen is refused, one four octets before is not looked at again |
| HttpIncremental.IncrementalRequest | picohttpparser.c:415-426 | If the first last_len octets were incomplete, the incremental call succeeds exactly when a fresh parse does, with the same result; and its verdict is the fresh one if and only if it is a first call, or the scan finds its empty line, or the scan stops for the same reason as the fresh parse |
| HttpIncremental.IncrementalResponse | picohttpparser.c:487-497 | The same for responses |
| HttpIncremental.WaitsWhereFreshRefuses | picohttpparser.c:415-419 | On `G(` a fresh parse refuses and the call made after the `G` waits |
| HttpIncremental.RefusesWhereFreshWaits | picohttpparser.c:415-419 | On `GET / ` CR X a fresh parse waits and the call made after the CR refuses |
| HttpIncremental.ResponseVerdictsDiffer | picohttpparser.c:487-491 | Both ways apart for responses |
| HttpIncremental.RefusedRequestStays | picohttpparser.c:415-426 | What the incremental call refuses is no request however it goes on, and stays refused |
| HttpIncremental.RefusedResponseStays | picohttpparser.c:487-497 | The same for responses |
| HttpIncremental.IncrementalHeaders | picohttpparser.c:500-519 | For a header block on its own the incremental call succeeds, and then with the result of a fresh parse, if and only if the fresh parse does and the call is a first one, or the block is not empty, or a line end comes next behind the empty block, or an empty line further on |
| HttpIncremental.RefusedBlockStays | picohttpparser.c:500-519 | A block it refuses is no header block however it goes on, unless it was a whole one already |
| HttpIncremental.EmptyBlockWaits | picohttpparser.c:500-519 | On CR LF a fresh parse accepts the empty block, and the call made after the CR alone still asks for more |
| HttpParser.ParseHeaderBlock | picohttpparser.c:500-519 | The header block parser computes its grammar, fresh or incremental |
| HttpRequests.ReadLong | http_utils.c:98-107 | The number loop computes strtol base 10 with blanks, sign and clamping |
| HttpNumbers.StrtolReads | http_utils.c:98-107 | Of white space, a sign, digits and anything behind them the number the digits spell in base ten is read, within the range of a long |
| HttpRequests.IsRequestComplete | http_utils.c:73-114 | The gate answers true exactly when the buffer is malformed, or its head is there with the body its first Content-Length asks of a POST |
| HttpRequests.CompleteIsMonotone | http_utils.c:73-114 | Once true for a buffer the gate is true for every extension of it |
| HttpRequests.HeldBackNeverMalformed | http_utils.c:87-88 | A buffer the gate holds back does not parse as malformed, and neither does any earlier part of it |
| HttpGate.CaseIsFolded | http_utils.c:95-97 | Names are told apart exactly when they differ in more than the case of letters |
| HttpGate.GateOpensAt | http_utils.c:73-114 | However a well-formed request of at most 32 headers comes in, the gate is shut before the last octet of its head and of the body a POST's first Content-Length asks for, and open from there on |
| HttpGate.PrintedLengthAsked | http_utils.c:98-111 | A Content-Length printed in decimal, under a name in any case, asks for just that many octets |
| HttpRequests.TakeRequest | connection_handler.c:171-202 | Gate and parse together: once through the gate a buffer is refused exactly when it is malformed, and otherwise a body is handed over that starts behind the head and is at least as long as a POST announced; a well-formed head is held back only for want of that body |
| HttpRequests.RequestParse | http_utils.c:116-139 | The request handed on: verb, headers, body slice, and the path up to its first question mark, none left in it and one behind it if anything was cut; refused exactly when the parse fails |
| HttpResponse.AppendToBuffer | http_utils.c:212-225 | Succeeds exactly when text and NUL fit; then the text follows what was there |
| HttpResponse.RenderHead | http_utils.c:233-254 | The head is written exactly when it fits with its NUL |
| HttpNumbers.PrintedIsRead | http_utils.c:98-107 | A length printed in decimal fits the number buffer of the gate and is read back |
| HttpRendering.RenderedMeans | http_utils.c:227-264 | The printed head and body parse to the status and its phrase, the body right behind the head (none for a redirect), a first Content-Length that the gate's own reader takes for the number of octets behind the head, Connection keep-alive or close as asked, the type given or that of the body's first character, and cookie and location if and only if given |
| HttpRendering.Render | http_utils.c:227-264 | -1 exactly when head >= outMax or head + body > outMax; otherwise head followed by body, and what was written means all that |
| HttpRoundTrip.ParseUndoesRender | http_utils.c:227-264 | For a status in 100..999 and clean values, phr_parse_response on the rendered head, whatever follows, gives back status, reason, every header in order, and the offset of the body |
| Primes.PrimeAbove | hash_table.c:374-379 | Above every number there is a prime, so the search ends |
| Primes.SixStep | hash_table.c:365-370 | Trying only 6k-1 and 6k+1 misses no divisor |
| Primes.NoSmallDivisor | hash_table.c:367-371 | Without a divisor up to the square root a number is prime |
| Primes.TestPrime | hash_table.c:362-372 | True exactly for primes |
| Primes.NextPrime | hash_table.c:374-379 | Ends for every n with the least prime not below n, except that 2 gives 3 |
| Primes.NextPrimeUnique | hash_table.c:374-379 | That property determines the result |
| HashTable.Table.constructor | hash_table.c:24-44 | An empty table of the capacity asked for, or 101, hashing with the seed it was given |
| HashTable.Table.Find | hash_table.c:141-148 | The walk along the pointers of a bucket stops at the first node with the key, its predecessor in hand, or at the end |
| HashTable.Table.Get | hash_table.c:113-134 | The value the map has for the key, or none |
| HashTable.Table.Set | hash_table.c:63-111 | The map with the key bound; entries stay in bucket hash mod capacity with correct cached hashes, keys stay unique, size is their number and below the capacity; the table grows, to the next prime from twice its capacity, exactly when a new key would fill it |
| HashTable.Table.Overwrite | hash_table.c:73-87 | The node with the key is given the new value in its place; the map has the key rebound and nothing else changes |
| HashTable.PutFront | hash_table.c:102-104 | The node becomes the head of its list in front of the nodes that were there, every other list of the row as it was |
| HashTable.Table.Insert | hash_table.c:97-106 | A new node goes to the head of its bucket, every other bucket as it was; the map has one more binding |
| HashTable.Table.Delete | hash_table.c:136-167 | The map without the key; the answer says whether it was there |
| HashTable.Table.CutOut | hash_table.c:155-157 | The predecessor, or the head, skips the node: its bucket is the list of nodes without it, every other bucket as it was |
| HashTable.Table.Unlink | hash_table.c:155-163 | Taking a node out of its bucket removes that binding only and leaves the order of the others |
| HashTable.Table.Resize | hash_table.c:169-195 | The capacity becomes the next prime from twice the old one and no binding changes; the nodes are the old ones, linked anew |
| HashTable.Table.MoveOne | hash_table.c:179-186 | The first node of an old bucket becomes the head of the new bucket its cached hash names, every other list as it was |
| HashTable.Table.MoveChain | hash_table.c:176-188 | Moving the nodes of one old bucket keeps every entry moved so far findable, and leaves the old buckets still to come as they were |
| Snapshot.GetInto | hash_table.c:113-134 | At most destSize octets of the value reach the caller's buffer, and no octet past them |
| Snapshot.Replay | hash_table.c:63-195 | Every sequence of set, get and delete, resizes included, answers and ends as on a map |
| Snapshot.Save | hash_table.c:46-61 | The file holds every entry, bucket by bucket, length-prefixed |
| Snapshot.PairLayout | hash_table.c:46-61 | A pair in the file: the length of the key in eight octets, the least significant first, the key, the length of the value likewise, the value |
| Snapshot.ReadPair | hash_table.c:260-286 | One length-prefixed pair within the limits, or the loader stops |
| Snapshot.LoadFile | hash_table.c:245-297 | A non-empty table is refused; otherwise exactly the pairs the loader accepts are stored in order |
| Snapshot.PrefixLoadsWholePairs | hash_table.c:245-297 | Loading any prefix of a file yields exactly the pairs wholly contained in it |
| Snapshot.SnapshotRoundTrip | hash_table.c:46-61 | Saving and loading into an empty table gives the same map, for every seed, capacity and bucket order, if and only if every key and value is within the loader's limits |
| Snapshot.SaveThenLoad | hash_table.c:245-297 | The same on two real tables, the equivalence both ways |
| RateLimiter.Limiter.Check | rate_limiter.c:35-67 | The answer is a function of the times of earlier checks of that address since the last recycle; an empty address is always let through; and as long as the clock has never run back no address has more than RATE_LIMIT_RPS admissions in its last two active seconds |
| RateLimiter.Limiter.RecycleIfFull | rate_limiter.c:38-45 | A table of more than MAX_SAVED_IP addresses is replaced by an empty one, so it never exceeds MAX_SAVED_IP + 1 |
| RateLimiter.Limiter.Count | rate_limiter.c:47-66 | The entry is read, rotated, counted and written back |
| RateLimiter.Limiter.Decide | rate_limiter.c:51-64 | Rotation, estimate and count |
| Windows.EntryMeaning | rate_limiter.c:51-64 | The two counters are the admissions of the current and of the previous active second, and their sum never exceeds RATE_LIMIT_RPS |
| Windows.AllowedExactly | rate_limiter.c:51-64 | A check is allowed if and only if this second and the active second before it have admitted fewer than RATE_LIMIT_RPS together |
| Windows.ConsecutiveWindows | rate_limiter.c:51-64 | Over any run with a non-decreasing clock two consecutive active seconds admit at most RATE_LIMIT_RPS |
| Windows.IdleThenAdmits | rate_limiter.c:51-62 | After a second that admitted nothing the first check is allowed |
| Windows.ClockRunBack | rate_limiter.c:51-64 | When the clock has run back by d seconds the window stays and the one before it weighs 1 + d times |
| Templates.FindPair | template.c:50-70 | The scan for doubled braces, at the end of the source too |
| Templates.CountFragments | template.c:83-95 | The counting pass returns exactly the number of fragments |
| Templates.ParseFragments | template.c:78-123 | The filling pass fills the counted array exactly |
| Templates.FragmentsTile | template.c:78-123 | The fragments lie one after the other over the whole source |
| Templates.TilesRender | template.c:222-246 | Any fragments that tile the source render to direct substitution |
| Templates.PrecompiledMeansDirect | template.c:222-246 | Rendering the precompiled fragments is substituting keys while reading the source, unterminated braces included |
| Templates.PlainSource | template.c:86-90 | A source without doubled braces is rendered as it stands |
| TemplatePrinting.RenderUndoesPrint | template.c:218-250 | A source printed from literals and keys in braces, the last key perhaps never closed, renders, directly and through its fragments, to the literals with each key replaced by the value of the first variable that has it |
| TemplatePrinting.EverySourceIsPrinted | template.c:78-123 | Every source is such a print |
| Templates.Find | template.c:41-48 | The value of the first variable with the key, in order; the empty text when no variable has it |
| Templates.Render | template.c:218-250 | -1 exactly when output and NUL do not fit, leaving a terminated prefix; otherwise the whole output and its length |
| Reports.SortSorts | report.c:356-369 | The listing is a permutation, newest first, NULL last |
| ReportLists.ListAnswer | report.c:347-404 | In every state a run reaches, a logged-in user's list request is answered with the JSON of exactly the reports that belong there: archived if and only if resolved, of the author or of the operator assigned; each once, with its own columns, newest first by resolution, assignment or filing |
| ReportLists.OneListEach | report.c:347-404 | In every state a run reaches, each report is in exactly one of its author's two lists and in exactly one of its assignee's, the archived one if and only if it is resolved, and in nobody else's |
| ReportCache.FindMeaning | report.c:157-178 | A lookup only frees slots; a hit is live with the key asked for; after a miss no live slot has it |
| ReportCache.FindExact | report.c:157-178 | A lookup finds the first entry with the key that is at most five seconds old, and frees just the older ones before it |
| ReportCache.StoreExact | report.c:182-216 | An answer that fits goes to the first free slot, or else to an oldest one; a longer one is not kept |
| ReportCache.StoredIsServed | report.c:157-216 | What was stored is served for five seconds and no longer |
| ReportCache.EvictsOldest | report.c:187-205 | A live entry is evicted only when no slot is free, and then an oldest one |
| ReportCache.StoreOk | report.c:182-216 | Storing a fresh answer after a miss keeps live entries fresh and their keys unique |
| ReportCache.SurvivorsDoNotMatch | report.c:218-230 | What an invalidation by city and author leaves live matches no report of that author filed in that city, whether listed by author or by assignee |
| ReportCache.InvalidateExact | report.c:218-230 | An invalidation frees every operator list of the city and the lists of the author there, and no other entry |
| ReportCache.WriteOk | report.c:250-271 | Writing a row and invalidating its city and author keeps the cache in agreement with the database |
| ReportHandlers.ListOk | route_api.c:46-67 | A list request is answered with what a fresh query would say, and keeps the cache right |
| ReportHandlers.AssignOk | route_api.c:234-299 | Assignment and forced reassignment keep the whole invariant although the raw update in between breaks it |
| ReportHandlers.RawResetAloneIsStale | route_api.c:281-282 | A concrete state in which the raw update alone leaves a stale list |
| ReportHandlers.UpdatesAdmissible | report.c:273-343 | Accept, reject, resolve and feedback each lead to columns that agree with the new status |
| ReportHandlers.StepOk | route_api.c:46-299 | Every handler keeps cache coherence, city agreement and column agreement, and does one thing to a report at most: assign it, reassign it or give it back, take it up, resolve it, or rate it once; a new one is active |
| ReportHandlers.RunOk | route_api.c:46-299 | Over every run with a non-decreasing clock the invariant holds, and reports only move forward: in progress becomes only resolved, resolved is final, feedback never changes |
| ReportHandlers.CacheNeverStale | report.c:157-230 | In every run a hit returns exactly the JSON a fresh query would, live keys are unique, and report, author and assignee agree on the city |
| ReportHandlers.ColumnsAgree | report.c:234-343 | In every run: unassigned exactly when active, resolved_at exactly when resolved, feedback in 1..5 only when resolved, times in order |
| ReportOutcomes.RateOutcome | route_api.c:173-209 | Rating answers 200 if and only if a citizen rates an own resolved report not yet rated with one to five stars; then those stars are stored and nothing else changes |
| ReportOutcomes.SetStatusOutcome | route_api.c:71-127 | Setting a status answers 200 if and only if an operator resolves a report of the same city that this operator is at work on; then that row is resolved now and nothing else changes |
| ReportOutcomes.RespondOutcome | route_api.c:130-171 | Responding answers 200 if and only if an operator accepts or rejects a report of the same city assigned to this operator; then that row is in progress, or active and unassigned, and nothing else changes |
| ReportOutcomes.AssignOutcome | route_api.c:234-299 | Assigning answers 200 if and only if an administrator gives an active or assigned report of the city to an operator of the city; then that row is assigned to that operator now and nothing else changes |
| ReportOutcomes.SubmitOutcome | route_pages.c:191-230 | A citizen's report with a description inside the city becomes a new active row under the next number with all it was filed with; nothing else is ever filed |
| ReportOutcomes.SessionOutcome | route_pages.c:108-148 | A login binds its token to the user as stored, a logout unbinds its token; no other token is touched |
| ReportOutcomes.RegisterOutcome | route_pages.c:150-189 | A registration adds one user under the next number; it is refused for a second administrator of a city |
| ReportServer.Server.CacheFind | report.c:157-178 | The scanning loop computes the pure lookup |
| ReportServer.Server.CacheStore | report.c:182-216 | The slot-choosing loop computes the pure store |
| ReportServer.Server.InvalidateCity | report.c:218-230 | The loop frees exactly the slots the pure invalidation frees |
| ReportServer.Server.Assign | report.c:250-271 | A row that is active and unassigned, and no other, becomes assigned to the operator now; then the invalidation of its city and author |
| ReportServer.Server.Accept | report.c:273-287 | A row assigned to the operator, and no other, becomes in progress; then the invalidation |
| ReportServer.Server.Reject | report.c:289-304 | A row assigned to the operator, and no other, becomes active and unassigned; then the invalidation |
| ReportServer.Server.Resolve | report.c:306-324 | A row the operator is at work on, and no other, is resolved now; then the invalidation |
| ReportServer.Server.SetFeedback | report.c:326-343 | A resolved, unrated row of the author, and no other, is given these one to five stars; then the invalidation; stars out of range are refused before any query |
| ReportServer.Server.Insert | report.c:234-249 | A new active row, then the invalidation of its city and author |
| ReportServer.Server.GetJson | report.c:347-404 | A hit copied out, or a query run and stored when it is not empty |
| ReportServer.Server.HandleList | route_api.c:46-67 | The handler computes its step |
| ReportServer.Server.HandleSubmit | route_pages.c:191-230 | The handler computes its step |
| ReportServer.Server.HandleSetStatus | route_api.c:71-127 | The handler computes its step, guards in the order of the code |
| ReportServer.Server.HandleRespond | route_api.c:130-171 | The handler computes its step |
| ReportServer.Server.HandleRate | route_api.c:173-209 | The handler computes its step |
| ReportServer.Server.HandleAssign | route_api.c:234-299 | The handler computes its step, forced reassignment included |
| SlabAllocator.Chunk.AddBlock | slab_allocator.c:31-41 | A block goes in front of the free list, which stays acyclic |
| SlabAllocator.Chunk.Thread | slab_allocator.c:27-44 | A new chunk has capacity blocks, all of them on its free list |
| SlabAllocator.Chunk.Pop | slab_allocator.c:92-95 | The first free block becomes used; used + free = capacity still holds |
| SlabAllocator.Chunk.Push | slab_allocator.c:107-110 | A used block goes back in front; used + free = capacity still holds |
| SlabAllocator.SlabPool.constructor | slab_allocator.c:48-59 | A pool with one chunk and no live block |
| SlabAllocator.SlabPool.FindSpace | slab_allocator.c:76-79 | The first chunk of the list with a free block, or none when all are full |
| SlabAllocator.SlabPool.LinkFront | slab_allocator.c:86-89 | The chunk list stays doubly linked with the newcomer in front |
| SlabAllocator.SlabPool.Alloc | slab_allocator.c:73-99 | The block handed out is not live and comes from the first chunk that has one; one chunk is added in front, and only when all are full |
| SlabAllocator.SlabPool.JoinNeighbours | slab_allocator.c:115-121 | The chunk's neighbours face each other, and the head moves on if it was first |
| SlabAllocator.SlabPool.Unlink | slab_allocator.c:115-124 | The chunk list stays doubly linked without the chunk |
| SlabAllocator.SlabPool.Release | slab_allocator.c:112-124 | Only a chunk with no live block leaves the pool |
| SlabAllocator.SlabPool.Free | slab_allocator.c:101-125 | The block is no longer live; its chunk leaves the list only if it is empty and not the only one |
| SlabAllocator.SlabPool.ChunksBounded | slab_allocator.c:112-124 | There are never more chunks than live blocks, or than one |
| SlabAllocator.SlabPool.Destroy | slab_allocator.c:61-71 | Every chunk is freed exactly once |
| Connections.UpdateKeepsConn | connection_handler.c:97-256 | Every callback keeps its connection in order: totalRead at most CLIENT_BUFFER_SIZE - 1, at most one response in flight, an open connection either reading with its timer armed or answering a complete request, a closing one counting exactly the close callbacks due |
| LinkedLists.UnlinkedOk | client_manager.c:56-68 | With several chains about, unlinking takes the element out of the one it is in and leaves every other element in its own |
| Connections.ListKeptIff | client_manager.c:45-68 | A step keeps the active list equal to the linked contexts, each once, and the count its length within MAX_CLIENTS, if and only if it is not the last close callback of a context whose accept failed |
| Connections.ListOkIff | client_manager.c:45-68 | After any run the active list and the count are what they should be if and only if no context whose accept failed has been closed to the end |
| Connections.ListOkWhileAccepted | client_manager.c:45-68 | As long as no accept fails the active list and the count are what they should be |
| Connections.RunOk | connection_handler.c:97-256 | In every run, accept failures included, each connection is in order, the linked contexts are each in exactly one pointer chain, only a failure leaves a chain the head pointer does not lead to, and the count is the linked contexts less the failures |
| Connections.AcceptFailureLosesTheList | connection_handler.c:110-113 | One failed accept and the list forgets a connection that is still open; when that one closes later the head pointer leaves the live list and the next connection is forgotten too |
| Connections.ReleasedUntouched | connection_handler.c:238-247 | No event libuv may raise concerns a released context, nor does close_all |
| Connections.ReleasedIsFinal | connection_handler.c:238-247 | Over the rest of any run, accept failures included, nothing changes a released context |
| Connections.ReleasedOnce | connection_handler.c:238-256 | In every run, accept failures included, a context gets at most two close callbacks and is released exactly once when it has had both |
| Connections.CloseAllCloses | client_manager.c:74-84 | close_all asks exactly the contexts the head pointer leads to to close and touches no other |
| Connections.CloseAllReachesAll | client_manager.c:74-84 | With the list in order, after close_all every context is closing or closed |
| Connections.NothingLeaks | connection_handler.c:238-256 | After any run, once libuv has nothing left to call back, every context has been released exactly once, every chain is empty, and the count is short by the failures |
| ConnectionFates.AcceptFate | connection_handler.c:97-130 | A client is taken in if and only if there are fewer than MAX_CLIENTS, read and timed, or closed at once when accept failed |
| ConnectionFates.OthersStay | connection_handler.c:97-256 | A callback changes no connection but its own |
| ConnectionFates.ReadFate | connection_handler.c:156-210 | A failed read closes; octets join those received; when they are a whole request, or can be none, reading and timer stop and the answer goes out, to be kept if and only if the client was let through, the request is well-formed and asks for it; or the connection closes if the answer cannot be printed |
| ConnectionFates.WriteFate | connection_handler.c:214-231 | After a response the connection closes unless it was sent in full and is to be kept; kept, it waits for its next request with nothing received |
| ConnectionFates.TimeoutFate | connection_handler.c:233-236 | A client that has not sent its request in time is closed |
| ConnectionFates.ClosingStays | connection_handler.c:250-256 | What is closing stays so |
| ConnectionFates.RequestCycle | connection_handler.c:156-231 | Over a whole request and its response the connection is kept if and only if the client was let through, sent a well-formed request that asks for it, and took the whole response; other connections, list and count are as before |
| ConnectionHandler.ClientManager.Link | client_manager.c:45-54 | The newcomer goes in front of the chain the head pointer leads to, every chain well linked |
| ConnectionHandler.ClientManager.TakeOut | client_manager.c:58-66 | The neighbours face each other; the head pointer moves to the successor exactly when there is no predecessor; the context's own links are cleared |
| ConnectionHandler.ClientManager.Unlink | client_manager.c:56-68 | The chains without the context, whichever it was in; for a context never linked, a head pointer to nothing and one less in the count |
| ConnectionHandler.ClientManager.SetupClient | connection_handler.c:97-121 | Refused exactly at the cap; otherwise a context as the protocol sets it up, linked only if accept succeeded |
| ConnectionHandler.ClientManager.OnClose | connection_handler.c:238-247 | Refines the close step of the protocol, on fields and on the pointer list |
| ConnectionHandler.ClientManager.CloseAll | client_manager.c:74-84 | Every connection the head pointer leads to is asked to close, once |
| ConnectionHandler.ClientCtx.CloseClient | connection_handler.c:250-256 | Refines the close request, guarded against a second one |
| ConnectionHandler.ClientCtx.OnBufferAlloc | connection_handler.c:133-153 | The buffer appears on first use; the tail offered leaves room for the terminator |
| ConnectionHandler.ClientCtx.OnRead | connection_handler.c:156-210 | Refines the read step: octets taken in, terminator inside the buffer, answer only when complete |
| ConnectionHandler.ClientCtx.TakeIn | connection_handler.c:167-169 | The octets join those received; the terminator lands inside the buffer and changes none of them |
| ConnectionHandler.ClientCtx.Receive | connection_handler.c:133-210 | Memory asked for, filled and handed over refines the read step |
| EventLoop.Loop.constructor | client_manager.c:10-13 | The objects start as the empty state of the protocol |
| EventLoop.Loop.Connection | connection_handler.c:97-130 | On a heap of contexts, in any state a run can reach, accepting (or failing to) takes contexts, pointer chains and count to what the step says, every other context untouched |
| EventLoop.Loop.Read | connection_handler.c:156-210 | On a heap of contexts, a read is the read step of one context and changes no other, nor the list |
| EventLoop.Loop.Written | connection_handler.c:214-231 | On a heap of contexts, the end of a write is its step |
| EventLoop.Loop.Timeout | connection_handler.c:233-236 | On a heap of contexts, a timeout is its step |
| EventLoop.Loop.Closed | connection_handler.c:238-247 | On a heap of contexts, in any state a run can reach, a close callback is its step, pointer chains, head and count included, also when it loses the list or comes after it was lost |
| EventLoop.Loop.CloseAll | client_manager.c:74-84 | On a heap of contexts, close_all is its step, whether or not the list has been lost |
| ClientPool.PooledLoop.Connection | client_manager.c:22-34 | Below the cap a client's context gets a block of the slab pool that no other unreleased context has |
| ClientPool.PooledLoop.Closed | client_manager.c:36-41 | The last close callback gives the context's block back to the pool, where it was still live, and no other callback does; the blocks handed out stay exactly those of the unreleased contexts, one each |
| ClientPool.PooledLoop.Handle | connection_handler.c:97-256 | Whatever libuv may raise is handled as the step says, memory included, and nothing but the loop's own and new objects is touched |
| ClientPool.Serve | connection_handler.c:97-256 | Any run of events on a new server, carried out on the objects: contexts, chains, count and pool end as the protocol's run does; and once libuv has nothing left to call back every block is back in the pool and one chunk is left |
| ConnectionHandler.ClientCtx.Dispatch | connection_handler.c:179-209 | Over the limit and malformed requests are refused without keep-alive, others answered |
| ConnectionHandler.ClientCtx.SendResponse | connection_handler.c:59-78 | A response under way, or a close when it cannot be rendered |
| ConnectionHandler.ClientCtx.OnWriteComplete | connection_handler.c:214-231 | Refines the write step: close, or start over reading and timed unless closing |
| ConnectionHandler.ClientCtx.OnTimeout | connection_handler.c:233-236 | Refines the timeout step |

## Left out

- `findchar_fast` and the other SSE4.2 branches: the Makefile does not enable them.
- `phr_decode_chunked_is_in_data`: one comparison.
- HashTable.Table.Set: the copies made of key and value are not modelled, nor is the truncation of the bucket index to an `unsigned int` above 2 to the 32 buckets.
- HttpRendering.Render: the `int` width of the returned length is not modelled, nor NUL bytes inside the text fields, which end a C string.
- Primes.TestPrime: works on unbounded naturals, without the overflow of the squared divisor.
- RateLimiter.Limiter.Check: the counters are unbounded and time is in whole seconds.
- Templates.Render: a destination of size 0 and a null template are refused before the loop; only the size is modelled.
- ReportHandlers.CacheNeverStale: rows with equal sort keys are listed by id, where SQLite leaves the order open; both sides of the equation use the same order.
- ReportHandlers.StepOk: session expiry and the text of error pages are not modelled.
- ClientPool.PooledLoop.Connection: a context and its block are two objects side by side, so that a context's fields lie in the block's memory is not modelled.
- SlabAllocator.SlabPool.Alloc: asks for chunks of at least one block, as slab_allocator.h:40 does; a pool of empty chunks can be made but has nothing to hand out.
- Allocation failures, read and write locks, logging, sockets, and a write that libuv refuses at once.
- URL decoding, HTML escaping, cookies, form fields, routing, pages, geography, passwords, sessions' tokens: easy or foreign.
