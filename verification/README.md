# ostrichserver: verified models

Models of the parts of ostrichserver that are hardest to get right, with machine-checked proofs.
`dafny verify dfyconfig.toml` (Dafny 4.11) checks all of them.

- **Event hand-off** (`Packing`, `AtomicList`, `Linearizability`, `Delivery`, `VersionWrap`, `Wakeup`, `EventLoop`, `HandOff`).
  The lock-free list of atomiclist.c runs as interleaved atomic steps of any number of threads over any
  number of nodes: load the head, write or read a link, compare and swap, clear a link. It is proved to be
  linearizable and lock-free, to keep every node in one place, and to be free of the ABA problem if and only if
  fewer than 2^16 removals overtake a pop. The mutex and condition variable of thread.c stand around it, and no
  wakeup is lost. The event thread's queues are chains through the events' own links, changed in place: from the
  push to the handler every prompt event runs exactly once, in push order, and a repeating idle event once a round.
- **Request line** (`RequestLine`, `RequestSlices`, `RequestGrammar`, `RequestLanguage`, `RequestErrors`, `RoundTrip`, `AbsoluteForm`, `ByteClasses`, `HostValidation`, `HttpRequests`).
  The resumable parser of http_parse.c, byte by byte, and its consumers in http_request.c. What is parsed does
  not depend on how the bytes arrive; the parser completes exactly the texts of the grammar's form, with every field
  right, and refuses a text as soon as nothing could complete it; a printed line, in origin or absolute form, is
  parsed back; the flags that skip normalisation are exact; lengths are differences of ordered positions; the host of
  a request is brought to one final form; and which requests are accepted, and how they go on, is decided exactly.
- **Hash indexes** (`Dict`, `DictTables`, `StringDictionary`, `HashTable`, `HeaderTable`, with `Bits` for the bit operators and `Common` for shared names).
  The incremental rehash of dict.c, the string dictionary of arrays.h and the open addressing of hashtable.c,
  each tied to a map or to what was added, at every stage of a rehash or rebuild.

Where a promised property does not hold of the code, the code is modelled as it is, a failing input is given,
and the exact condition is proved: `VersionWrap.StalePopWins` with `WindowIsSharp`; `Dict.AbsentKeyRefused` with
`AddSucceedsExactly`; `StringDictionary.FourthInsertionReturnsFirst` with `InsertedIsFoundExactly`; and, for tables
smaller than the constant the search wraps at, `HeaderTable.StoredStringIsLost` with `HashTable.SmallTableFindsExactly`
and `LeavesTableExactly`. `HostValidation.KeepsTrailingDot` is about os_http_validate_host alone: the hosts that its
only caller passes always reach a final form (`ParserHost`).

Assumptions. Clients push only nodes they own, and the memory of a node stays readable after it was popped.
Pointers are canonical 48-bit addresses. Every event has zero timeout, and an event to be redone is an idle one;
processor.c and thread.c create no others. Handlers do not touch the queues. The socket delivers non-empty chunks;
a read into a full buffer returns no bytes, which the code takes for the end of the connection. Keys that compare
equal have equal hashes, and comparing equal is an equivalence. A dict table that takes an entry has at most
2^31 buckets, and the sizes that the string dictionary grows to are within int. Strings hold no NUL.

## Model

| member | source | states |
|---|---|---|
| Packing.PointerExtendsSign | atomiclist.h:71-72 | ALPOINTER sign-extends the low 48 bits of the word |
| Packing.Unpack | atomiclist.h:71-75 | packing a canonical pointer with a version and unpacking gives back the pointer, and the version modulo 2^16 |
| Packing.SameWord | atomiclist.h:71-75 | two packed words are equal exactly when the pointers are equal and the versions agree modulo 2^16: what the compare-and-swap compares |
| Packing.Repack | atomiclist.h:71-75 | every 64-bit word is the packing of its own pointer and version |
| AtomicList.StepKeepsInv | atomiclist.c:40-118 | every shared access of every thread keeps the chain from head finite, acyclic and equal to the abstract list, keeps each node in one place and each thread's locals truthful, as long as fewer than 2^16 removals overtake a pop |
| AtomicList.PopReadsCurrentLink | atomiclist.c:69-79 | a pop whose compare-and-swap is about to win, with fewer than 2^16 removals since its load, holds the true successor of the head; no removal happened in between |
| AtomicList.PopCasExact | atomiclist.c:75-79 | whatever the versions did, a winning pop keeps the list correct if and only if the link it read is the current successor |
| AtomicList.BatchIsReadable | atomiclist.c:95-118 | when popall returns, its caller owns every node of the batch, and following the links from the returned pointer, the one in the word it loaded, visits exactly the batch and stops at NULL |
| AtomicList.OnePlace | atomiclist.c:40-118 | a node is in the list, in one push, in one pop or with one client, and the list holds it once |
| AtomicList.LinkWritesAreOwned | atomiclist.c:51-84 | every write to a node's link is by the thread that owns the node |
| AtomicList.WalkLinked | atomiclist.c:40-57 | following the links of a chain gives the list from any of its nodes |
| Linearizability.StepIsAction | atomiclist.c:40-118 | each step is a call, the single commit of an operation, a reply or nothing, on an atomic list object: the commits are the winning compare-and-swaps and the loads of a NULL head |
| Linearizability.RunInv | atomiclist.c:33-118 | the invariant holds in every state of every run from atomic_list_init |
| Linearizability.PopReturnsCleared | atomiclist.c:79-92 | a pop that is about to return a node has cleared its link, and the node is its caller's |
| Linearizability.SameEvents | atomiclist.c:40-118 | the actions show clients the same calls and the same returned values as the machine |
| Linearizability.Linearizable | atomiclist.c:40-118 | every run, of any number of threads and nodes, is a run of the atomic list object with the same calls and returned values: push's old head, pop's node and popall's pointer are those in the words that were loaded |
| Linearizability.FailureMeansProgress | atomiclist.c:48-116 | lock-freedom: a compare-and-swap fails only if, since the thread loaded the head, another thread has committed an operation |
| Delivery.Conservation | atomiclist.c:40-118 | in every run of the object the pushed nodes are, with multiplicity, those delivered and those still listed: none lost, none handed out twice |
| Delivery.FirstInFirstOut | atomiclist.c:40-118 | without single pops the delivered batches, each turned around, followed by the list turned around, are the pushes in order |
| Delivery.DeliversInOrder | atomiclist.c:40-118 | the same for every interleaving of the machine, with no bound on removals, and the heap links from head are exactly the undelivered nodes |
| HandOff.BatchesAreDelivered | atomiclist.c:95-118 | without single pops the batches of a run carry, as events, exactly what the list delivers, in order |
| HandOff.PushedEventsRunInOrder | thread.c:267-405 | from push to handler, for every interleaving of the list and any rounds that take its batches: the prompt events that ran, those queued in the loop and those still in the list are, in this order, all that were pushed, in push order |
| VersionWrap.StalePopWins | atomiclist.c:67-84 | a reachable run with exactly 2^16 removals in the window lets a stale pop install a node that another thread owns |
| VersionWrap.WindowIsSharp | atomiclist.c:67-84 | every run in which each winning pop is overtaken by at most n removals keeps the list correct, if and only if n is below 2^16 |
| Wakeup.MoveKeepsInv | thread.c:136-147 | one step of any producer or of the consumer, or a timeout, keeps the list's invariant, the mutex discipline and the debt: a sleeping consumer with a non-empty list has a producer that still has to signal |
| Wakeup.SystemRunInv | thread.c:267-303 | the invariant in every state of every run |
| Wakeup.NeverLosesWakeup | thread.c:267-303 | in every reachable state, if the consumer has found the list empty and is about to wait or waits, and head is not NULL, some producer that pushed onto the empty list has not signalled yet |
| Wakeup.WakeupIsNear | thread.c:136-147 | from there at most three steps of producers, none of the consumer and no timeout, wake it |
| Wakeup.SignalsAreCounted | thread.c:275-284 | in every run the signals sent and those still owed are as many as the pushes that found the list empty: no wakeup is wasted either |
| Wakeup.TakesSomething | thread.c:294-305 | in every reachable state, timeouts included, the consumer that has left the wait loop finds a non-empty list, and the batch it takes is not empty |
| Wakeup.ReturnsWithBatch | thread.c:287-317 | in every run thread_event_dequeue returns only with a batch, and never with an empty one |
| Wakeup.MutexIsReleased | thread.c:136-147 | in every reachable state with the mutex taken, at most two steps of its holder give it back |
| Wakeup.DrainIsNear | thread.c:305-312 | a consumer that drains, left alone, takes the whole list in four steps and is done |
| EventLoop.LocalQueue.Enqueue | thread.c:149-159 | puts the event in front of the chain, through its own link |
| EventLoop.LocalQueue.Dequeue | thread.c:161-179 | takes the first event off the chain and clears its link; null when empty |
| EventLoop.EventThread.ProcessEvent | thread.c:250-260 | runs the handler and collects an event that is to be redone |
| EventLoop.EventThread.DrainCollected | thread.c:374-387 | the first loop runs the prompt events in order and postpones the idle ones |
| EventLoop.EventThread.Relink | thread.c:305-312 | the batch, newest first, ends up in push order in front of what was collected |
| EventLoop.EventThread.DrainPostponed | thread.c:393-399 | the last loop runs every postponed event once and collects those to be redone |
| EventLoop.EventThread.Round | thread.c:369-405 | one round on the heap-linked queues is the round on sequences |
| EventLoop.PromptRound | thread.c:369-405 | one round runs exactly the collected prompt events, in order, and collects the batch in push order |
| EventLoop.PromptEventsInOrder | thread.c:369-405 | over any number of rounds the prompt events that ran, followed by those queued, are the initial ones and then all arrivals in push order: first in, first out, exactly once |
| EventLoop.IdleRound | thread.c:374-399 | a round runs an idle event as often as it was queued, and keeps it queued exactly if it is to be redone |
| EventLoop.RepeatsEveryRound | thread.c:369-405 | a queued idle event to be redone runs once in every round and stays queued once |
| EventLoop.RoundsAreList | thread.c:369-405 | over any rounds the two queues are one list in the order of arrival: each round runs its prompt events in order and its idle events in the opposite order, and keeps those to be redone in front of the new arrivals |
| EventLoop.FirstLoopEnds | thread.c:374-387 | the loop over collected events ends if and only if no event among them is to be redone without being idle |
| RequestLine.DispatchRedo | http_parse.c:572-594 | only the two after-URI states take a byte again, and then go back to a URI state: the measure behind the loop's termination |
| RequestLine.FinishAtLineFeed | http_parse.c:763-770 | a line is finished by a line feed only |
| RequestLine.ResultCodes | http_parse.c:772-792 | the return code tells an incomplete, a complete and a rejected line apart |
| RequestLine.Buffer.Receive | http_request.c:206-232 | as much of the arriving data as fits is appended to the buffer |
| RequestLine.HttpRequest.Parse | http_parse.c:73-793 | the parser in place, on a partly filled buffer from a saved state: return code, fields, saved state and position of `Run`; on an error state and position stay |
| RequestLine.RunPrefix | http_parse.c:107-110 | a run over a longer text stops where the run over the shorter one stopped, or goes on from its saved state |
| RequestLine.FeedIsRun | http_parse.c:772-775 | parsing chunk by chunk through OS_AGAIN is parsing the whole text, from any state |
| RequestLine.ChunksDoNotMatter | http_parse.c:772-792 | two ways of splitting the same bytes give the same return code, positions, flags, version and final position |
| RequestLine.CompleteAtLineFeed | http_parse.c:777-779 | the final position is just after a line feed of the text |
| RequestLine.OnlyTheLineMatters | http_parse.c:777-792 | a prefix gives the same result if and only if it reaches past the terminating line feed; a shorter one is incomplete |
| RequestSlices.DispatchKeeps | http_parse.c:109-771 | every state keeps the invariant that ties the recorded positions and flags to the text |
| RequestSlices.RunFits | http_parse.c:107-792 | the invariant over whole runs from any reachable state |
| RequestSlices.UriOverSpaces | http_parse.c:572-592 | spaces that did not end the URI become part of it with all facts kept |
| RequestSlices.SliceOrder | http_parse.c:115-771 | request_start <= method_end < uri_start < uri_end <= request_end < pos; the method is a token, the URI starts with a slash, ends in no space, holds no CR, LF or NUL and no space before an 'H', and request_end is the line end |
| RequestSlices.FlagsAreExact | http_parse.c:452-624 | neither complex_uri nor quoted_uri is set if and only if the path has no '%', '#', '?' or NUL and no '/' or '.' after a slash, and the arguments no '#'; space_in_uri if and only if the URI holds a space |
| RequestSlices.FirstUncleanDecides | http_parse.c:452-624 | each of args_start, quoted_uri, complex_uri and plus_in_uri on its own: what the first byte of the URI that needs normalisation decides |
| RequestSlices.ExtensionInPath | http_parse.c:511-534 | for every completed line, clean or not, uri_ext is where the extension of the clean part of the path begins: after the last dot of its last segment; it lies inside the path after a dot |
| RequestSlices.HostSliceIsHostName | http_parse.c:310-401 | the host slice is a registered name or a bracketed literal |
| RequestGrammar.DispatchShape | http_parse.c:109-771 | every state keeps the form of what has been read |
| RequestGrammar.EveryLineHasTheForm | http_parse.c:115-792 | every completed line is a method token, spaces, an origin or absolute target, and either nothing or spaces and HTTP/major.minor; method code, schema, host, port, URI, protocol and both numbers (modulo 2^16) are the ones in the text, and the return code is OS_OK unless the version is 9 and the method is not GET |
| RequestLanguage.FormCompletes | http_parse.c:115-792 | every text of the form is completed at its end: with empty lines before it, any number of spaces between the parts, a bare LF, no version, an authority without a path, or spaces inside the URI |
| RequestLanguage.LanguageIsExact | http_parse.c:115-792 | the exact language: a text is one complete request line if and only if it has that form for some fields, with a URI that ends in no space, holds no CR, LF or NUL and has no space before an 'H' |
| RequestLanguage.LineEndsExactly | http_parse.c:115-792 | of a longer text the line ends after n bytes if and only if the first n bytes have that form |
| RequestErrors.WayOnCompletes | http_parse.c:109-771 | from every state of the parser some bytes lead to a complete line |
| RequestErrors.RefusedExactly | http_parse.c:109-792 | a text is refused if and only if no bytes after it complete a line, and OS_AGAIN is returned if and only if it is not complete and some bytes complete it: errors are neither late nor early |
| RequestErrors.CodeExactly | http_parse.c:115-160 | a refused text gets INVALID_METHOD if and only if its method is bad, that is, after empty lines a byte other than a method byte comes before the space; otherwise INVALID_REQUEST |
| RoundTrip.Numeral | http_parse.c:690-744 | a decimal numeral whose value is the number, without a leading zero |
| RoundTrip.OverMajor | http_parse.c:700-712 | after any digits the stored major number is their decimal value modulo 2^16 |
| RoundTrip.OverMinor | http_parse.c:724-744 | the same for the minor number |
| RoundTrip.OverTarget | http_parse.c:452-624 | a target of any bytes but NUL, CR, LF and space is passed over in the URI states, changing only the fields that describe it |
| RoundTrip.PrintThenParse | http_parse.c:115-792 | parsing method SP target SP HTTP/major.minor CRLF, with numerals of any length, completes at the end and recovers method slice and code, URI slice, protocol and numbers modulo 2^16 |
| RoundTrip.NumbersRoundTrip | http_parse.c:690-792 | for major in 1..65535 and minor in 0..65535 the result is OS_OK and both numbers come back |
| RoundTrip.PrintIsInjective | http_parse.c:115-792 | a printed line determines its parts |
| AbsoluteForm.OverAuthority | http_parse.c:310-428 | a host, a registered name or a bracketed literal, and an optional port up to the slash are passed over, recording exactly their ends |
| AbsoluteForm.PrintThenParseAbsolute | http_parse.c:250-428 | parsing method SP schema://host[:port]target SP HTTP/major.minor CRLF gives back schema, host and port as well, for every registered name, literal and port digits |
| RoundTrip.MethodCodeByName | http_parse.c:129-247 | the comparisons by length and second byte find the code of the method's name and no other |
| RoundTrip.MethodCodeIsInjective | http_parse.c:129-247 | two methods with the same known code have the same name |
| RoundTrip.MethodCodeIsBit | http_parse.c:129-247 | the fifteen methods have the bits from 0x0002 to 0x8000 in the order of the header file, and other names keep 0 |
| ByteClasses.UsualIsBitmap | http_parse.c:22-42 | the bit test on the table `usual` holds exactly for the bytes that no URI state treats specially |
| ByteClasses.LetterByOr | http_parse.c:257-258 | the test on ch | 0x20 holds exactly for the ASCII letters |
| HostValidation.StrLow | osstring.c:82-91 | copies n bytes in lower case: the same text up to letter case, without an upper-case byte |
| HostValidation.LowerExactly | osstring.h:26 | the lower-case form of a text is the same text up to the case of its letters, and two texts have the same form if and only if they are the same up to case |
| HostValidation.Scan | http_request.c:418-468 | the scan refuses exactly NUL, '/' and adjacent dots, and otherwise finds the cut: after the bracket of a literal or at the first colon, less a trailing dot that is the last one of all |
| HostValidation.HostString.Validate | http_request.c:400-488 | OS_DECLINED with the string unchanged, or OS_OK with the canonical name, in new memory exactly when a byte had to be lowered or the caller asked for it; the bytes given are never written |
| HostValidation.AcceptedName | http_request.c:423-488 | an accepted name is not empty, has no upper-case byte, no NUL, slash or adjacent dots, and no colon outside a literal |
| HostValidation.AcceptedIsHost | http_request.c:464-485 | an accepted name is the host up to its cut, letter for letter up to case |
| HostValidation.CanonicalIgnoresCase | http_request.c:400-488 | two hosts that are the same up to case get the same name, or are both declined |
| HostValidation.DeclinedExactly | http_request.c:423-474 | any host at all is declined if and only if it holds a NUL, a slash or adjacent dots, or nothing is left of it: it is empty, begins with a colon, or is a single dot up to its colon with no dot after it |
| HostValidation.PortIsCut | http_request.c:431-449 | whatever follows a colon after a registered name or a literal, the name is what is left |
| HostValidation.TrailingDotExactly | http_request.c:464-466 | an accepted name ends in a dot if and only if the cut name did and another dot follows the cut |
| HostValidation.IdempotentExactly | http_request.c:400-488 | validating an accepted name again returns it unchanged if and only if it does not end in a dot |
| HostValidation.KeepsTrailingDot | http_request.c:425-466 | of the function alone: on "a.:8." it keeps a dot the first time and drops it the second time; no caller passes such a host |
| HostValidation.ParserHost | http_request.c:290-307 | a host of the parser's form is declined exactly when it is empty, a single dot or has adjacent dots; otherwise it becomes the same text up to case, in lower case and without a trailing dot, and validating that again changes nothing |
| HostValidation.RequestHost | http_request.c:290-307 | the same for the host of every request line that completes, from the first byte received |
| HttpRequests.UriBounds | http_request.c:344-382 | the subtracted positions are in order, so no length is negative |
| HttpRequests.UriJoin | http_request.c:341-398 | the unparsed URI is path, '?' and arguments joined; the path points into the buffer unless a flag is set; the extension is the end of the path from the last dot of its clean part on; valid_unparsed_uri if and only if there is no space |
| HttpRequests.FillFields | http_request.c:344-382 | the assignments compute these fields |
| HttpRequests.Request.ProcessRequestUri | http_request.c:341-398 | the fields describe the line that was just parsed |
| HttpRequests.Request.ReadRequestHeader | http_request.c:184-235 | unread bytes, newly received bytes, nothing yet, or a full buffer; no byte is lost between socket and buffer, and the parser can go on |
| HttpRequests.Request.ProcessParsedLine | http_request.c:270-315 | URI fields, host validation and the choice by version |
| HttpRequests.Request.ProcessRequestLine | http_request.c:237-324 | however the socket delivers the data, and over any number of readiness events, the outcome is that of all the bytes sent |
| HttpRequests.DecidedForGood | http_request.c:261-324 | once decided, more data changes nothing |
| HttpRequests.ServedByItsLine | http_request.c:261-324 | a line that fits the buffer is served by its own bytes alone; a longer one is refused |
| HttpRequests.AcceptedExactly | http_request.c:261-324 | a request is accepted if and only if its data begin with a line that parses, fits the buffer, is a GET if its version is 9, and names no unacceptable host |
| HttpRequests.ServedExactly | http_request.c:272-317 | the request is processed at once if and only if its data begin with a good line whose version is below 1.0, and its header lines are read if and only if they begin with any other good line; either way with that line, the position after its line feed, and the host's final name, which is there exactly when the target is absolute |
| HttpRequests.PrintedReadsHeaders | http_request.c:309-317 | every printed line of a version from 1.0 to 65535.65535 that fits the buffer leads on to the header lines, whatever follows it |
| HttpRequests.WaitsExactly | http_request.c:261-270 | the server waits for more if and only if the data fit the buffer, hold no complete line and could still become one |
| Bits.AndBits | dict.c:276 | the bitwise and, bit by bit |
| Bits.OrBits | http_parse.c:257 | the bitwise or, bit by bit |
| Bits.XorBits | hashtable.c:63 | the bitwise exclusive or, bit by bit |
| Dict.NextPowerIsLeast | dict.c:129-144 | for every size below LONG_MAX the table size is the least 100 * 2^k that is large enough, below 2^64 |
| Dict.Slot | dict.c:222 | hash & sizemask is an index of the table, whatever its size |
| Dict.SlotBits | dict.c:222 | a bit of the index is set if and only if it is set in the hash and in the mask |
| Dict.SameSlotExactly | dict.c:276 | two keys share a bucket if and only if their hashes agree in every bit of size - 1 |
| Dict.ExpandKeeps | dict.c:155-179 | expansion keeps the entries and the invariant, and succeeds exactly when no rehash runs and the size holds the used entries |
| Dict.ExpandMakes | dict.c:155-179 | a successful expansion makes one new empty table of the least 100 * 2^k buckets that are enough: table 0 if there was none, otherwise table 1 with rehashidx 0; a failed one changes nothing |
| Dict.RehashStepKeeps | dict.c:195-237 | one turn keeps the union of both tables, the sum of used, the placement of every entry and the emptiness of the buckets below rehashidx |
| Dict.MoveChainKeeps | dict.c:216-234 | moving a chain keeps its entries and puts each where its hash says |
| Dict.MoreToMove | dict.c:210-214 | while used[0] is positive a filled bucket lies at or after rehashidx, so the scan stays inside the table |
| Dict.RehashKeeps | dict.c:188-242 | any number of turns keeps the union, the sum of used and the invariant |
| Dict.RehashEndsExactly | dict.c:188-242 | n turns end the rehash if and only if n is greater than the number of filled buckets (or negative) |
| Dict.RehashInParts | dict.c:188-242 | m turns and then n turns are m + n turns |
| Dict.LookupDecides | dict.c:343-386 | at every stage of a rehash dict_find returns an entry of the union whose key compares equal, or the union has none |
| Dict.RehashIsInvisible | dict.c:188-242 | with distinct keys no stage of a rehash changes what is found |
| Dict.ExpandIfNeededKeeps | dict.c:244-260 | making room never fails, loses nothing and leaves a table to insert into |
| Dict.ExpandIfNeededMakes | dict.c:244-260 | room is made exactly for the first entry, with 100 buckets, and at six entries a bucket, with a table for twice as many; otherwise nothing changes |
| Dict.AddKeeps | dict.c:296-341 | an addition adds exactly its entry or nothing, and keeps the invariant |
| Dict.AddSucceedsExactly | dict.c:262-294 | an addition succeeds if and only if every entry in the walked chains compares equal to the key |
| Dict.AddAbsentExactly | dict.c:262-294 | for an absent key: if and only if the walked chains are empty |
| Dict.AddAbsentIsFound | dict.c:244-341 | an absent key that was added is found with its entry, every other lookup is unchanged and the keys stay distinct, wherever the entry went |
| Dict.AddPresentExactly | dict.c:262-294 | a present key is stored a second time if and only if its entry is all that the walk meets |
| Dict.AddedIsFoundExactly | dict.c:312-371 | an entry just added is found, unless a rehash goes on and table 0 still holds its key: then the old entry is found |
| Dict.MovedIsTurned | dict.c:216-232 | of a key that was stored twice in a chain the oldest entry is found once the chain is moved |
| Dict.CollisionIsRefused | dict.c:281-283 | an absent key whose hash equals that of a stored one is always refused |
| Dict.SecondAcceptedExactly | dict.c:244-294 | of two different keys in a new dictionary the second is accepted if and only if the hashes differ in a bit of 99, that is in bit 0, 1, 5 or 6 |
| Dict.AbsentKeyRefused | dict.c:281-283 | the shortest such run |
| Dict.ExecHoldsAccepted | dict.c:155-341 | after any run of additions, rehashes and expansions the union holds exactly the accepted entries |
| Dict.RunsFindAccepted | dict.c:155-386 | after any run that adds only absent keys a lookup returns an entry if and only if it was accepted and its key compares equal |
| DictTables.FindNextPower | dict.c:129-144 | the doubling loop in unsigned long arithmetic |
| DictTables.DictObject.ExpandTo | dict.c:155-179 | dict_expand on the two tables |
| DictTables.DictObject.NextFilled | dict.c:210-214 | the scan over empty buckets finds the first filled one without leaving the table |
| DictTables.DictObject.MoveBucket | dict.c:216-234 | the inner loop of dict_rehash moves a whole chain and keeps both counters equal to the chain lengths |
| DictTables.DictObject.RehashTurns | dict.c:188-242 | dict_rehash in place: the state after n turns, and 1 exactly while the rehash goes on |
| DictTables.PushInto | dict.c:312-318 | the new entry becomes the first of its chain and used grows by one |
| DictTables.DictObject.KeyIndexFor | dict.c:262-294 | _dict_key_index in place |
| DictTables.DictObject.AddEntry | dict.c:296-341 | dict_add in place: the new tables and the return code |
| DictTables.DictObject.FindEntry | dict.c:343-386 | dict_find in place |
| DictTables.WalkFind | dict.c:365-371 | the walk returns the first entry that compares equal |
| DictTables.WalkBlocked | dict.c:280-286 | the walk is stopped exactly by an entry that does not compare equal |
| StringDictionary.InsertStacks | arrays.h:484-545 | an insertion pushes the value on its key's stack; if the chain grew past three, the rebuild turns every stack around |
| StringDictionary.RebuiltStacks | arrays.h:512-536 | a rebuild keeps every key's values and reverses their order |
| StringDictionary.RebuildsExactly | arrays.h:501-536 | an insertion rebuilds, with ((size + 2) * 3) / 2 buckets, if and only if three stored entries have the new key's hash modulo the size; otherwise the size stays, and is 1 after the first insertion into an unallocated dictionary |
| StringDictionary.RemoveStacks | arrays.h:547-590 | a removal takes the newest value of the key and nothing else |
| StringDictionary.InsertedIsFoundExactly | arrays.h:418-545 | a value just inserted is the one found if and only if no rebuild happened, the key was absent, or its oldest value is the same |
| StringDictionary.FourthInsertionReturnsFirst | arrays.h:484-538 | after four insertions of one key into an empty dictionary the first value is found |
| StringDictionary.InsertIsUpdate | arrays.h:484-545 | with distinct keys, inserting an absent key updates the map, rebuilt or not |
| StringDictionary.RemoveIsErase | arrays.h:547-590 | with distinct keys, removal erases the key |
| StringDictionary.CountIsSize | arrays.h:442-460 | with distinct keys, dictionary_keys_count is the map's size |
| StringDictionary.ExecIsMapRun | arrays.h:418-590 | any run that never inserts a stored key is the same run on a map |
| StringDictionary.RunsAreMaps | arrays.h:352-590 | from a dictionary of any initial size, such a run leaves value_for_key and keys_count those of the map |
| StringDictionary.Dictionary.ValueForKey | arrays.h:418-440 | the newest value in the chain, or NULL |
| StringDictionary.Dictionary.KeysCount | arrays.h:442-460 | the number of entries |
| StringDictionary.Dictionary.InsertEntry | arrays.h:484-538 | insertion in place, with and without rebuild |
| StringDictionary.Dictionary.Rebuild | arrays.h:512-536 | every entry goes into a dictionary of ((size + 2) * 3) / 2 buckets, which takes the old one's place |
| StringDictionary.Dictionary.RemoveValueForKey | arrays.h:547-590 | removal in place |
| HashTable.VariantsHashAlike | hashtable.c:53-68 | ASCII case variants have the same start slot and the same pair of hashes |
| HashTable.UpperExactly | hashtable.c:62 | two bytes have the same upper-case form if and only if they are the same up to letter case |
| HashTable.ComputeHash | hashtable.c:53-68 | the loop of hashstring |
| HashTable.AddKeeps | hashtable.c:100-127 | an addition keeps every slot between a string's start and its own taken, and succeeds if and only if a slot is free |
| HashTable.AddStores | hashtable.c:113-126 | an accepted addition turns one free slot into the string with its data and leaves every other slot alone; a refused one changes nothing, and no slot was free |
| HashTable.StoredIsFound | hashtable.c:129-157 | in a table of MAXHASHTABLELEN slots a stored string is found in any case |
| HashTable.OwnSlotIsFound | hashtable.c:129-157 | in its own slot, if no other stored string has the same pair |
| HashTable.FoundIsFirst | hashtable.c:142-153 | of several strings with the pair the one nearest to its start is returned |
| HashTable.AnswerDecides | hashtable.c:129-157 | a returned slot carries the pair; -1 means that no stored string has this start slot and pair; the search never leaves the table; all in a table of MAXHASHTABLELEN slots |
| HashTable.LeavesTableExactly | hashtable.c:142-153 | in a smaller table a search reads past the last bucket if and only if all slots from its start on are taken by other pairs |
| HashTable.SmallTableFindsExactly | hashtable.c:142-153 | there a stored string is found if and only if its pair lies between its start and the end of the table |
| HashTable.LostAtWrap | hashtable.c:142-153 | in any smaller table, of two strings with different pairs that start at the last slot the second is accepted into slot 0, and a search for it reads past the last bucket |
| HeaderTable.StoredStringIsLost | http.c:145-167 | an input for it: in a table of 512 slots, as http.c makes one, and with the numbers that crypttable_init computes, "PO" and then "QR" are accepted and "QR" is not found |
| HashTable.RunsFindAdded | hashtable.c:100-157 | after any additions, an accepted string is found in any case, now and after any further additions |
| HashTable.RunsFindData | hashtable.c:100-157 | the slot that a search returns holds the data given at the addition, in any case of the letters, now and after any further additions, as long as no other string has the pair |
| HashTable.Buckets.FindFree | hashtable.c:113-118 | the probing ends, at the first free slot or back at its start on a full table |
| HashTable.Buckets.AddString | hashtable.c:100-127 | hashtable_add in place |
| HashTable.Buckets.Exists | hashtable.c:129-157 | hashtable_isexist in place, with its wrap-around at MAXHASHTABLELEN |
| HashTable.CryptTableInit | hashtable.c:25-51 | fills all 0x500 entries, entry by entry, from the multiplicative sequence, without overflow |

## Left out

- Sockets, epoll, signals, processes, configuration, logging and the stub handlers: foreign calls and I/O.
- The timing wheel of queue.c: its link updates do not build the lists its loop walks, and no event that the server creates has a timeout.
- Memory: allocation failure, freeing, reference counts of requests and connections.
- Locks in dict.c: the dictionary is modelled sequentially. dict_rehash when there is no rehash or when it has just ended (dict.c:192 and 203), and dict_find on an empty table, return without unlocking; that is not part of the model.
- Hash quality: the hash of a dictionary is an arbitrary fixed function; only hashstring is modelled as it is computed.
- The 32-bit pointer layout and the Windows branches of the parser.
- Chain links in dict.c and arrays.h: the bucket arrays are changed in place, the chain of a bucket is a sequence value, so aliasing between entries is not modelled. The same holds for the removal that joins the two sides of a chain.
- dict_replace, dict_release, dictionary_has_key (a test for a non-empty bucket), dictionary_all_keys, and the array macros: little to prove beyond the operations above.
- The lengths of request_line, method_name and http_protocol, and request_length: further differences of the ordered positions.
- The copied path of a flagged URI: http_process_request_uri allocates it and does not fill it, so nothing is said of its bytes.
- Header lines, and what follows once a request line is accepted.
- HttpRequests.Request.ProcessRequestLine: a timer on the read event and the finishing of a refused request are not modelled; a refused request is an outcome.
- DictTables.DictObject.AddEntry: does not model an index that overflows int, because a table of more than 2^31 buckets that takes the entry is excluded.
- DictTables.DictObject.RehashTurns: does not model the underflow of int after 2^31 turns of a negative count.
- StringDictionary.Dictionary.InsertEntry: an insertion that needs a rebuild to a size beyond int is excluded; that overflow is not modelled.
- HashTable.Buckets.Exists: is for tables of at most MAXHASHTABLELEN slots, because in a larger one the search may never come back to its start; a read past the last bucket is an outcome of its own and ends the search.
- HandOff.PushedEventsRunInOrder: is stated for runs without single pops, as thread.c makes none, and for idle events only as far as `EventLoop.IdleRound` goes.
- AtomicList.StepKeepsInv: is stated for pops that fewer than 2^16 removals overtake, because the code is wrong beyond that bound.
- EventLoop.EventThread.Round: the two priority-queue calls at the end of a round are left out with the timing wheel.
- Wakeup.NeverLosesWakeup: one consumer per queue, as each event thread owns its queue.
