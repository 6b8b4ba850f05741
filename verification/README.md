# Noctaxris-AZ: verified model

A Dafny model of the parts of Noctaxris-AZ, an emulator of Azure services, in which correctness is
not obvious from one function at a time. `dafny verify dfyconfig.toml` checks all of it.

| files | what they model |
|---|---|
| `AmqpEncoder`, `AmqpParser`, `AmqpParserLoops`, `AmqpNoPanic`, `AmqpRoundTrip`, `AmqpPeer` | the AMQP 1.0 encoder and the mutually recursive parser (section 1.6 of OASIS AMQP 1.0 Part 1): termination, bounds, exactly when it panics, round trip, and a grammar of all the forms a peer may send with what each of them says |
| `AmqpFraming` | frames (section 2.3 of Part 2) and Data sections (section 3.2.6 of Part 3) |
| `AmqpSession`, `AmqpRuns`, `AmqpCredit`, `AmqpDelivery`, `AmqpAttach`, `AmqpLogin` | the session object with its links and credit (section 2.6.7 of Part 2), every interleaved run of sessions over one durable table, what a deliver loop sends in such a run, what one Flow delivers undisturbed, what an Attach asked for and what it then gets, and what an Open leaves behind |
| `ServiceBus`, `EventHubs`, `StorageQueue`, `StorageQueueHeads`, `Rfc3339`, `Tables` | the three durable message stores, the time strings they compare, and SQLite tables with growing ids |
| `GroupSearch`, `Aliases`, `Scopes`, `Evaluator` | the RBAC evaluator: nested groups, alias lists, scope chains and LIKE prefixes |
| `FicClauses`, `Glob` | the federated-credential expression language and its glob-to-regular-expression compiler |
| `TokenFlows`, `TokenRequests`, `Audience` | device codes and refresh tokens (section 3.5 of RFC 8628, section 6 of RFC 6749), as tables and as runs of forms, and the audience normalizer |
| `AppConfig`, `AppConfigHistory` | App Configuration key-values and frozen snapshots, and what the listings show after any calls |
| `Redaction` | the depth-bounded redactor |
| `Outcomes`, `ByteStrings`, `Text`, `Listings` | result types, bytes, Go's string functions, and what WHERE and ORDER BY list |

Conventions. Objects that the source updates in place are classes (`ServiceBus.Store`,
`AmqpSession.Session`, `TokenFlows.Store`, ...); each method is proved against a specification
function, and the theorems are about those functions. A Go panic (an inverted slice) is the outcome
`Panic`, never a precondition. A Go map's iteration order is left open: what ranges over one is
proved for every order. Clocks, random draws, hashes, the password check, Conditional Access, token
minting, SAS signing and verification, and the role catalogue are parameters.

Some properties that one would expect need a condition. Each is stated with its exact condition:

- Parsing panics on an inverted slice if and only if a list or map header that it reaches has a size
  too small to cover its own count (`AmqpNoPanic.ValuePanicsIff`, `AmqpNoPanic.DescribedPanicsIff`).
- A Data section is stored as its content if and only if the content is not empty; an empty one is
  stored as its raw encoding (`AmqpFraming.StoredFaithfully`).
- A Service Bus queue as a whole is a FIFO in every run if and only if only the plain dequeue is
  allowed on it; in general, a part of the table is one if and only if no allowed filter straddles it
  (`ServiceBus.QueueIsFifoIff`, `ServiceBus.FifoIffRespected`). Lanes always are.
- Comparing the stored time strings compares the times of all years up to `n` if and only if
  `n <= 9999` (`Rfc3339.OrderedIffFourDigits`).
- A storage queue message taken with a timeout stays hidden until the timeout has passed, in every
  run, if and only if the timeout's nanoseconds fit a signed 64-bit integer; 9223372037 seconds, which
  a client can ask for, hide nothing (`StorageQueue.HidesIffNoOverflow`,
  `StorageQueue.ExclusiveIffNoOverflow`, `StorageQueue.LongTimeoutHidesNothing`).
- What is allowed on a scope is allowed on another one, whatever the assignments, if and only if the
  first is on the second's chain; so an unrooted scope passes nothing on to any other
  (`Evaluator.InheritsIffOnChain`).
- A non-empty list of clauses, printed and joined, is split and parsed back if and only if every
  clause is printable (`FicClauses.ComesBackIff`).
- The nested-group search misses a member three groups away when a cut-off path met one of those
  groups first. It is exact for graphs of at most `n` reachable groups if and only if `n <= 8`
  (`GroupSearch.ExactIffAtMostEight`).
- A value is matched as the glob says by every pattern if and only if it holds no newline
  (`Glob.GlobForAllPatternsIff`).
- Redaction is idempotent, for every iteration order, if and only if no map it visits has more than
  64 keys (`Redaction.IdempotentIffSmall`).
- Normalizing an audience twice is the same as once if and only if, in its first word (less one
  "/.default" when there is no other word), neither white space nor "/.default" stands before the
  trailing slashes (`Audience.IdempotentIff`).

Where the code differs from what its own comments say, the code is followed: deleting an App
Configuration store is by name, so it reaches the key-values and snapshots of a store of the same
name in another subscription or resource group (`AppConfig.DeleteIsByName`).

## Model

| member | source | states |
|---|---|---|
| AmqpEncoder.EncodeValue | internal/amqp/server.go:472-542 | the loop over a map emits each entry once, in some order of its keys; every other type has its one encoding, and an unknown type is null |
| AmqpEncoder.EncodePerformative | internal/amqp/server.go:441-470 | the bytes are a described list of the encodings of the fields, in order, in the 8- or 32-bit form |
| AmqpParser.ParseValue | internal/amqp/server.go:665-763 | terminates; on success consumes at least one byte and no more than there are (what it reads from each form is `AmqpPeer.WireParses`) |
| AmqpParser.ParseDescribedList | internal/amqp/server.go:580-606 | on success at least four bytes are consumed and the rest is exactly the remaining suffix |
| AmqpParser.ParseList | internal/amqp/server.go:608-645 | on success consumes between one byte and all of them |
| AmqpParser.ParseCounted | internal/amqp/server.go:613-640 | a counted list consumes exactly its declared size and yields exactly its declared number of fields |
| AmqpParser.ParseMap | internal/amqp/server.go:765-819 | on success consumes between one byte and all of them |
| AmqpParserLoops.ParseListItems | internal/amqp/server.go:647-663 | the loop computes the recursive specification: every missing item is nil, the first error ends it |
| AmqpParserLoops.ParseMapEntries | internal/amqp/server.go:793-818 | the loop keeps the entries read before the first error, and only a panic propagates |
| AmqpNoPanic.DescribedPanicsIff | internal/amqp/server.go:580-645 | on every byte string, parsing a performative panics if and only if it reaches a list or map header whose size does not cover its count |
| AmqpNoPanic.ValuePanicsIff | internal/amqp/server.go:665-819 | the same for single values, maps and everything nested in them |
| AmqpNoPanic.DescribedNeverPanics | internal/amqp/server.go:580-645 | a check without parsing: no panic when every byte that looks like a header, reached or not, is followed by a covering size |
| AmqpNoPanic.ValueNeverPanics | internal/amqp/server.go:665-819 | the same check for single values |
| AmqpNoPanic.ContentIsNoHeader | internal/amqp/server.go:700-710 | that check is not necessary: content that looks like a short header parses |
| AmqpNoPanic.ShortListPanics | internal/amqp/server.go:613-625 | the panic is real: six bytes that make an inverted slice |
| AmqpRoundTrip.ValueRoundTrip | internal/amqp/server.go:472-542 | for every value whose encoding is below 2^32 bytes, map order and trailing bytes, parsing an encoding returns the value (a uint16 widened) and its exact length |
| AmqpRoundTrip.EntriesRoundTrip | internal/amqp/server.go:765-819 | entries written in any order are all read back into the map |
| AmqpRoundTrip.OrderRebuilds | internal/amqp/server.go:513-541 | whatever order a map was ranged over, inserting its entries in that order rebuilds it |
| AmqpRoundTrip.CodecRoundTrip | internal/amqp/server.go:441-645 | for every code, field list and trailing bytes below the 32-bit size limit, parsing a performative returns the code, the fields and exactly the tail |
| AmqpRoundTrip.CodecInjective | internal/amqp/server.go:441-606 | two streams that begin alike carry the same performative: encodings are prefix-free |
| AmqpPeer.WireParses | internal/amqp/server.go:665-819 | for every form of every value that a peer may send (true, false, uint0, ulong0, the small and the full unsigned forms, short and long strings, binaries, maps and nested described lists with either descriptor, null and unknown constructors) and any trailing bytes, parsing yields the value said and exactly the bytes of the form |
| AmqpPeer.EntriesParse | internal/amqp/server.go:793-818 | the entries of a map, keys and values in any forms, are read in sequence: string and binary values are recorded, later ones over earlier, and a key that is no string counts as the empty one |
| AmqpPeer.DescribedParses | internal/amqp/server.go:580-645 | a performative with either descriptor form, and an empty, short, long or bare body, parses to its code, its fields (missing ones null) and exactly what follows |
| AmqpPeer.TornWireIsAnError | internal/amqp/server.go:665-819 | every proper prefix of any such form is an error, never a shorter value |
| AmqpPeer.OtherDescriptorsAreErrors | internal/amqp/server.go:580-606 | anything but the two descriptor forms is an error |
| AmqpFraming.ReadFrame | internal/amqp/server.go:387-408 | never panics, and a frame read takes at least its eight header bytes off the stream |
| AmqpFraming.FrameRoundTrip | internal/amqp/server.go:387-421 | a written frame whose size fits 32 bits reads back as the same channel and body, leaving what follows |
| AmqpFraming.TornFrameIsAnError | internal/amqp/server.go:387-408 | every proper prefix of a frame is an error, never a shorter frame |
| AmqpFraming.StreamRoundTrip | internal/amqp/server.go:118-133 | any sequence of written frames whose sizes fit 32 bits reads back as the same sequence, also with a torn frame behind it |
| AmqpPeer.PeerFrameReads | internal/amqp/server.go:387-408 | a frame with an extended header, of any type, reads as its channel and body, leaving what follows |
| AmqpPeer.BadFramesAreErrors | internal/amqp/server.go:387-408 | a size below eight, or a data offset outside the frame, is an error |
| AmqpFraming.DataRoundTrip | internal/amqp/server.go:544-578 | a Data section of fewer than 2^32 bytes yields its content, empty or not |
| AmqpPeer.PeerDataReads | internal/amqp/server.go:551-578 | a Data section with a string or binary in any form yields its bytes, whatever follows |
| AmqpPeer.PeerPayloadReads | internal/amqp/server.go:551-578 | so does a bare string or binary; any other bare value leaves the payload as it is |
| AmqpFraming.StoredFaithfully | internal/amqp/server.go:273-276 | a Data section is stored as its content if and only if the content is not empty |
| AmqpFraming.TransferFidelity | internal/amqp/server.go:428-439 | a delivered transfer reads back as one frame with the handle, the delivery id and the identical bytes, whatever follows |
| AmqpSession.Session.OnFrame | internal/amqp/server.go:159-304 | links, login, delivery count, message table, frames written and connection status after one frame are those of the functional specification |
| AmqpSession.Session.Open | internal/amqp/server.go:169-191 | the precedence of connection string, signature, token and key name, and the reply |
| AmqpSession.Session.Attach | internal/amqp/server.go:199-253 | a link is added only after the namespace, key and token checks, under its handle and with complementary role, and is echoed (what that means for the peer is `AmqpAttach.LinksAreAsked`) |
| AmqpSession.Session.Flow | internal/amqp/server.go:254-266 | credit is replaced, and only a sending link with credit delivers |
| AmqpSession.Session.Transfer | internal/amqp/server.go:267-290 | the stored body goes into the link's queue and a settled disposition with the peer's delivery id comes back |
| AmqpSession.Session.Deliver | internal/amqp/server.go:306-328 | the loop sends, spends credit and numbers deliveries as the functional drain does |
| AmqpSession.DrainTurn | internal/amqp/server.go:311-326 | one turn of the loop, from any point of a delivery, leaves the total effect as it was |
| AmqpSession.Write | internal/amqp/server.go:423-439 | the frame written carries the performative and, for a transfer, the Data section |
| AmqpRuns.DispatchBenign | internal/amqp/server.go:159-304 | no frame changes a link other than its credit, except an attach whose checks passed; at most one message enters the table |
| AmqpRuns.SendOneEffect | internal/amqp/server.go:306-328 | one send removes the oldest message of exactly the link's queue and uses the next delivery id |
| AmqpRuns.StepKeeps | internal/amqp/server.go:118-328 | every single step of every connection keeps the invariant |
| AmqpRuns.RunKeeps | internal/amqp/server.go:118-328 | so does every run |
| AmqpRuns.EveryRun | internal/amqp/server.go:99-328 | however sessions interleave: links are keyed by handle, have a namespace and were admitted by a token that verified; delivery ids count 1, 2, 3, ... modulo 2^32; every link's credit is what was last granted less the sends since; a message is sent only within that credit and over a link admitted for its queue; per queue, what was there and was stored is what was sent followed by what is still there |
| AmqpCredit.CreditIsSpent | internal/amqp/server.go:254-328 | between any two moments of any interleaved run with no attach and no Flow for a link in between, its credit and the sends over it make up the credit it had |
| AmqpCredit.DeliverSpendsCredit | internal/amqp/server.go:306-328 | while a connection delivers, whatever the other connections do: if it is still connected it has the link, and credit and sends since make up the credit at the start |
| AmqpCredit.DeliverEndsIff | internal/amqp/server.go:311-318 | the loop ends at a look that finds no credit or the queue empty, and at no other |
| AmqpCredit.DeliverSendsCreditOrAll | internal/amqp/server.go:306-328 | a whole deliver loop, interleaved with anything, sends as much as it had credit for, or less and then the queue was empty |
| AmqpDelivery.FlowSendsExactly | internal/amqp/server.go:254-328 | while no other connection touches the queue, a Flow on a sending link sends exactly the min(credit, queue length) oldest messages, in order, with consecutive ids, and leaves credit minus that |
| AmqpDelivery.DrainExact | internal/amqp/server.go:306-328 | the same for an undisturbed deliver loop from any state |
| AmqpDelivery.DrainElsewhere | internal/amqp/server.go:306-328 | other queues keep their messages |
| AmqpDelivery.TransferStores | internal/amqp/server.go:267-283 | a transfer with a non-empty Data section stores exactly its bytes |
| AmqpDelivery.EndToEnd | internal/amqp/server.go:267-328 | a body sent in a Data section, stored, and delivered by any connection decodes to the identical bytes |
| AmqpAttach.LinksAreAsked | internal/amqp/server.go:199-253 | in every run, at every moment, a connection has a link for a role, namespace and queue on a handle if and only if the last Attach for the handle asked for them, by its own fields, and no Detach has followed |
| AmqpAttach.SentAsAsked | internal/amqp/server.go:199-328 | in every run, a message is sent on a handle only while there stands an Attach as receiver that named the very namespace and queue the message is from |
| AmqpAttach.GrantIsServed | internal/amqp/server.go:199-328 | in every run, while such an Attach stands, a Flow of n delivers the min(n, length) oldest messages of the queue it named, in order, and leaves every other queue alone |
| AmqpAttach.AttachThenFlow | internal/amqp/server.go:199-266 | an admitted Attach as receiver followed by a Flow of n does just that |
| AmqpAttach.AttachIsAnswered | internal/amqp/server.go:199-253 | an Attach keeps the connection if and only if its namespace has a key and the token verifies against it; the answer turns the role round and names the queue twice |
| AmqpAttach.TransferIsFiled | internal/amqp/server.go:267-290 | in every run, a Transfer with a non-empty Data section, in any form, is filed at the end of the queue that the Attach on its handle named, and nowhere else, and is settled |
| AmqpAttach.UnaskedIsIgnored | internal/amqp/server.go:254-296 | in every run, a Flow or a Transfer on a handle that was never attached, or was detached since, does nothing |
| AmqpLogin.SignatureIsTheToken | internal/amqp/server.go:169-184 | a SharedAccessSignature among the properties of an Open is the token, whatever else it carries |
| AmqpLogin.TokenFillsTheGap | internal/amqp/server.go:177-184 | without one and without a connection string, an earlier token stays and "sas-token" only fills a gap |
| AmqpLogin.OpenNamesTheNamespace | internal/amqp/server.go:374-385 | the host name, with or without blanks, scheme, domain, port and final slash, names the session namespace |
| AmqpLogin.ConnectionStringReads | internal/amqp/server.go:330-372 | settings in any order and spelling: the last of each kind counts, and a key, a namespace and no token sign one for an hour |
| AmqpLogin.EndpointNamesTheNamespace | internal/amqp/server.go:340-352 | an endpoint names the namespace under each of the three schemes |
| ServiceBus.Store.EnqueueSB | internal/store/data.go:505-511 | one live, session-less message is appended under a fresh id: its lane gains it at the end, every other lane keeps what it has |
| ServiceBus.Store.EnqueueSBWithMeta | internal/store/servicebus.go:9-18 | the lane of its session and dead-letter mark gains the message at the end, every other lane keeps what it has |
| ServiceBus.Store.Dequeue | internal/store/servicebus.go:21-56 | returns the oldest match and removes that row only; with no match nothing changes |
| ServiceBus.Store.DequeueSB | internal/store/data.go:513-538 | hands out and removes the head of the queue, whatever its session or dead-letter mark, or none exactly when the queue is empty; other lanes keep what they have |
| ServiceBus.Store.DequeueSBWithMeta | internal/store/servicebus.go:21-56 | a session id hands out the head of that session's lane, live or dead-lettered, an empty one the oldest message of the queue with the mark; none exactly when there is none; other lanes keep what they have |
| ServiceBus.HandsOutPart | internal/store/servicebus.go:21-56 | a dequeue whose filter selects exactly a part of the table hands out the head of that part, from the front of its lane, and takes nothing from any other lane |
| ServiceBus.LanesAreFifo | internal/store/servicebus.go:9-56 | under any mix of enqueues and the three dequeues, every (namespace, queue, session, dead-letter) lane is a FIFO without loss or duplication |
| ServiceBus.PlainQueuesAreFifo | internal/store/data.go:505-538 | a whole queue is one while only the plain dequeue touches it |
| ServiceBus.FifoIffRespected | internal/store/servicebus.go:9-56 | a part of the table is a FIFO in every run, from every valid table, if and only if no allowed filter straddles it |
| ServiceBus.QueueIsFifoIff | internal/store/servicebus.go:9-56 | a whole queue is one in every run if and only if every allowed filter of the queue is the plain one |
| ServiceBus.MixedQueuesOvertake | internal/store/servicebus.go:21-56 | a concrete run in which a dead letter overtakes a live message |
| ServiceBus.RunConserves | internal/store/servicebus.go:9-56 | conservation with order for every part of the table that no dequeue filter straddles |
| EventHubs.Store.EnqueueEventHub | internal/store/eventhubs.go:103-124 | one transaction appends the event to both tables, at the end of the lane of its partition, "0" by default; other lanes keep what they have |
| EventHubs.Store.DequeueEventHub | internal/store/eventhubs.go:207-239 | the head of the partition's lane, or with no partition of the hub, leaves the live table only; other lanes keep what they have |
| EventHubs.CapturedIsDeliveredThenLive | internal/store/eventhubs.go:103-239 | after every run, per partition, captured = delivered ++ live, so live is a suffix of captured |
| EventHubs.CaptureIsAppendOnly | internal/store/eventhubs.go:103-124 | the capture log only grows at its end |
| EventHubs.ListingShowsTheLane | internal/store/eventhubs.go:140-172 | a capture listing shows all of a partition that was delivered and all that is live, in order |
| EventHubs.ListingIsExact | internal/store/eventhubs.go:140-172 | a listing holds exactly the captured events of the hub in a namespace that is, blanks aside, among the names given |
| StorageQueue.Store.Peek | internal/store/data.go:246-260 | returns the oldest visible message, and none only when none is visible |
| StorageQueue.Store.Dequeue | internal/store/data.go:264-298 | that message is hidden for a positive timeout and deleted otherwise |
| StorageQueueHeads.DequeueServes | internal/store/data.go:264-298 | the first message of the queue that is due leaves its place, or stays there hidden until the timeout has passed; none is returned exactly when none is due; every other queue keeps what it has |
| StorageQueueHeads.PeekFindsTheFirst | internal/store/data.go:246-260 | a peek finds the first message of the queue that is due, and none exactly when none is |
| StorageQueueHeads.EnqueueFiles | internal/store/data.go:238-244 | the message goes to the end of its queue, due at once, and to no other |
| StorageQueueHeads.RunWellTimed | internal/store/data.go:238-298 | every run within years of four digits keeps the tables of which this is said |
| StorageQueue.NeverLost | internal/store/data.go:264-298 | over every run a message is still there if and only if no untimed dequeue has returned it |
| StorageQueue.HiddenRun | internal/store/data.go:246-298 | in every run whose clocks read earlier than its visibility second, no peek and no dequeue returns a hidden message |
| StorageQueue.VisibleAgain | internal/store/data.go:246-298 | from that second on it is eligible, not before |
| StorageQueue.TimedDequeueIsExclusive | internal/store/data.go:264-298 | a message taken with a timeout whose nanoseconds do not overflow is nobody else's until the timeout has passed, and is not lost |
| StorageQueue.HidesIffNoOverflow | internal/store/data.go:286-290 | a timeout hides the message from every clock reading before it has passed if and only if its nanoseconds fit a signed 64-bit integer |
| StorageQueue.ExclusiveIffNoOverflow | internal/store/data.go:264-298 | no operation of any run before the timeout has passed hands out a message taken with it, if and only if the nanoseconds fit |
| StorageQueue.LongTimeoutHidesNothing | internal/services/storage/handler.go:303-311 | the least timeout that overflows, which the handler accepts, hides nothing even at the moment it is set |
| Rfc3339.StampDenotes | internal/store/data.go:287-288 | the calendar fields of a time, counted back, are the time |
| Rfc3339.ByteOrderIsTimeOrder | internal/store/data.go:246-270 | up to the year 9999, comparing the strings compares the times |
| Rfc3339.OrderedIffFourDigits | internal/store/data.go:246-288 | the order of all instants up to a year n is kept by their strings if and only if n is at most 9999 |
| Rfc3339.PastYear9999TheOrderBreaks | internal/store/data.go:287-288 | past it every string of the years 10000-19999 sorts before every one of 2000-9999 |
| Rfc3339.YearStartsInIt | internal/store/data.go:287-288 | every year has instants: the calendar finds its first second in it |
| GroupSearch.Searcher.Contains | internal/kernel/authz/rbac.go:157-189 | the recursion over the shared visited set computes the search specification; it terminates on every graph |
| GroupSearch.FoundIsSound | internal/kernel/authz/rbac.go:157-189 | a yes comes with a chain of at most eight groups down to a member that shares an id with the caller |
| GroupSearch.FoundIsExact | internal/kernel/authz/rbac.go:157-189 | with at most eight groups to reach, cycles or not, the answer is transitive membership |
| GroupSearch.ShortcutMissed | internal/kernel/authz/rbac.go:157-189 | with nine it can miss a member three groups away |
| GroupSearch.ExactIffAtMostEight | internal/kernel/authz/rbac.go:157-189 | the answer is exact for every graph of at most n reachable groups if and only if n is at most eight |
| Aliases.ListPrincipalAliases | internal/store/arm.go:13-73 | the list grown by the add closure holds each trimmed alias once, in order, without repeats |
| Aliases.ListPrincipalIds | internal/kernel/authz/rbac.go:112-139 | the id itself and its aliases, trimmed, without repeats |
| Aliases.IdSetsOverlap | internal/kernel/authz/rbac.go:141-155 | yes if and only if the lists share an element |
| Aliases.MatchesIffSameCanon | internal/kernel/authz/rbac.go:112-155 | in a directory with unique ids, two ids match if and only if they stand for the same thing |
| Aliases.MatchesIsAnEquivalence | internal/kernel/authz/rbac.go:112-155 | matching is reflexive, symmetric and transitive |
| Aliases.ClassOfAnApplication | internal/store/arm.go:13-73 | an application's class is its object id, its app id and its service principal's id |
| Aliases.ClassOfAStranger | internal/store/arm.go:13-73 | an id outside the directory is alone in its class |
| Aliases.SpListOmitsObjectId | internal/store/arm.go:13-73 | a service principal's own list lacks the object id, and they match all the same |
| Scopes.ListScopeChain | internal/kernel/authz/rbac.go:191-201 | the loop lists the scope and then its parents from the longest down |
| Scopes.ChainIsAncestors | internal/kernel/authz/rbac.go:191-201 | for every scope, the chain holds the scope and the '/'-boundary ancestors of its slash-trimmed form, and nothing else |
| Scopes.CanonicalChain | internal/kernel/authz/rbac.go:191-201 | for a canonical scope, its '/'-boundary ancestors exactly |
| Scopes.ChainsNest | internal/kernel/authz/rbac.go:191-201 | for every scope, what is on the chain of a chain member is on the chain |
| Scopes.EscapeInOnePass | internal/store/sql_like.go:6-11 | three replacement passes escape like one pass over the characters |
| Scopes.PrefixPatternSelects | internal/store/sql_like.go:14-16 | the pattern selects exactly the strings that extend prefix + "/", up to ASCII case |
| Scopes.TwoViewsAgree | internal/store/identity_extra.go:218-236 | a canonical scope is listed under a prefix if and only if the prefix is empty, is the scope or, up to ASCII case, is a proper member of its chain; the empty prefix is in no chain |
| Scopes.LowerCaseViewsAgree | internal/store/identity_extra.go:218-236 | in lower case, if and only if the prefix is empty or in the chain |
| Scopes.ChainMembersListIt | internal/store/identity_extra.go:218-236 | every member of a scope's chain lists the scope |
| Evaluator.Evaluate | internal/kernel/authz/rbac.go:41-67 | yes if and only if root, or some assignment on the chain matches the principal, by alias or nested group, and its role grants |
| Evaluator.CheckPrincipal | internal/kernel/authz/rbac.go:69-110 | same id, overlapping aliases or nested membership, tried in that order (whom that matches is `Evaluator.MatchingIsExact`) |
| Evaluator.ListRoleAssignmentsForScope | internal/store/arm.go:78-93 | exactly the subsequence of the rows on that scope |
| Evaluator.ListRoleAssignmentsByScopePrefix | internal/store/identity_extra.go:218-236 | exactly the rows under the prefix, each as often as it is there, ordered by id; among them all whose chain holds the prefix |
| Evaluator.MatchingIsExact | internal/kernel/authz/rbac.go:69-189 | with unique ids and at most eight groups to reach, on the tables alone: an assignment matches exactly the callers that stand for the same thing as its principal or, typed blank or "group" in any case, are transitive members of it |
| Evaluator.MatchingIsSound | internal/kernel/authz/rbac.go:69-189 | whatever the groups, nobody else is matched |
| Evaluator.TransitiveIff | internal/kernel/authz/rbac.go:157-189 | what the search looks for is transitive membership by the member rows: a row that stands for the caller, or one of kind "group", in any case and with blanks, whose group has the caller |
| Evaluator.EvaluatorIsExact | internal/kernel/authz/rbac.go:41-201 | over directory, groups, assignments and roles: a caller may act on a canonical scope if and only if some assignment on it or a '/'-boundary ancestor grants the action and is for what the caller stands for or, unless typed as a non-group, for a group that has the caller as a transitive member by the member rows |
| Evaluator.EvaluateIsExact | internal/kernel/authz/rbac.go:41-67 | yes if and only if some assignment on the scope or a '/'-boundary ancestor matches and grants |
| Evaluator.EvaluateOnAnyScope | internal/kernel/authz/rbac.go:41-67 | the same for every scope, canonical or not, with the ancestors of its slash-trimmed form |
| Evaluator.InheritsIffOnChain | internal/kernel/authz/rbac.go:41-67 | everything allowed on one scope is allowed on another, whatever the rows, principals and roles, if and only if the first is empty or on the second's chain |
| Evaluator.GrantsAreInherited | internal/kernel/authz/rbac.go:41-67 | what is allowed on a scope is allowed below it |
| Evaluator.GrantsDoNotLeak | internal/kernel/authz/rbac.go:41-67 | a sibling whose name merely extends the granted one gets nothing |
| Evaluator.MoreNeverRevokes | internal/kernel/authz/rbac.go:41-67 | adding assignments never revokes |
| FicClauses.SplitAndClauses | internal/store/fic_match.go:50-63 | the loop splits at each " and " as the recursive specification does |
| FicClauses.SplitIsLossless | internal/store/fic_match.go:50-63 | the parts with the separators put back are the text, and no part holds another separator in any letter case |
| FicClauses.ParsePrinted | internal/store/fic_match.go:81-120 | a printed clause parses back to itself |
| FicClauses.ExpressionRoundTrip | internal/store/fic_match.go:37-120 | any non-empty list of printable clauses, printed and joined, is split and parsed back to the same clauses |
| FicClauses.PrintableIff | internal/store/fic_match.go:81-120 | a clause is printable if and only if its print holds no separator and parses back to it |
| FicClauses.ComesBackIff | internal/store/fic_match.go:37-120 | a non-empty list of clauses, printed, joined, split and parsed, comes back if and only if every clause is printable |
| FicClauses.SplitsApart | internal/store/fic_match.go:50-63 | a text that ends in a quote is split on its own, whatever follows the separator behind it |
| FicClauses.EvaluateClaimsMatchingExpression | internal/store/fic_match.go:37-48 | true if and only if the expression is not blank and every part holds |
| FicClauses.EvaluationIsConjunction | internal/store/fic_match.go:37-79 | evaluating a printed expression is the conjunction of what its clauses say |
| FicClauses.PrintedListSays | internal/store/fic_match.go:37-141 | a printed list is true of the claims if and only if, clause by clause, "eq" in any case finds the claim equal and "matches" finds it matched by the glob, with wildcards for every character where no claim holds a newline; no other operator is ever true |
| Glob.Compile | internal/store/fic_match.go:122-136 | the loop writes the anchored expression, one piece for each pattern character |
| Glob.CompiledParses | internal/store/fic_match.go:122-136 | the expression written is read back as the intended items: quoting survives |
| Glob.CompilationIsExact | internal/store/fic_match.go:122-141 | it accepts exactly the values of the glob whose wildcards stop at a newline |
| Glob.GlobMatchIsGlob | internal/store/fic_match.go:122-141 | on newline-free values, exactly the values of the glob |
| Glob.GlobForAllPatternsIff | internal/store/fic_match.go:122-141 | every pattern matches a value as the glob says if and only if the value holds no newline |
| Glob.NewlineDiffers | internal/store/fic_match.go:122-141 | the shortest value and pattern for which it does not |
| Audience.FixedIffPlain | internal/services/entra/token.go:57-64 | the fixed points of normalizing are exactly the plain audiences, read off the string itself |
| Audience.NormalizeIs | internal/services/entra/token.go:57-64 | from blanks, a first word, its final slashes, more words and the default suffix, normalizing keeps exactly the first word without its slashes |
| Audience.IdempotentIff | internal/services/entra/token.go:57-64 | a second pass does nothing if and only if, however many last slashes of the audience's first word are taken off, neither white space nor "/.default" is at its end |
| Audience.DefaultTwice | internal/services/entra/token.go:57-64 | an audience with the suffix twice takes two passes |
| Audience.DefaultBeforeSlash | internal/services/entra/token.go:57-64 | so does one with the suffix before a slash |
| Audience.TabBeforeSlash | internal/services/entra/token.go:57-64 | and one with a tab before its slash |
| Audience.NormalizeShortens | internal/services/entra/token.go:57-64 | the result is the audience itself or shorter |
| Audience.AudienceSettles | internal/services/entra/token.go:202-208 | along any number of refreshes the audience never grows, is settled after as many as it has characters, and never changes once plain |
| TokenFlows.Store.PutDeviceCode | internal/store/directory.go:753-759 | a code's row starts over: no principal, not approved, its user code trimmed and upper-cased |
| TokenFlows.Store.ApproveDeviceCode | internal/store/directory.go:762-776 | binds the principal to every pending, unexpired row of the user code and says whether there was one; a blank code or principal does nothing |
| TokenFlows.Store.LookupDeviceCode | internal/store/directory.go:778-793 | the row, unless missing or past its expiry second |
| TokenFlows.Store.PutRefreshToken | internal/store/directory.go:731-736 | stores principal, trimmed audience and expiry under the token's hash |
| TokenFlows.Store.LookupRefreshToken | internal/store/directory.go:738-751 | the row, unless missing or past its expiry second |
| TokenFlows.Service.WriteToken | internal/services/entra/token.go:66-98 | a blocked or failed mint changes nothing; a success stores one refresh token for the same principal and audience |
| TokenFlows.Service.HandleDeviceCode | internal/services/entra/token.go:211-230 | the code is registered, pending, for 15 minutes under the user code that is returned, and both codes, the lifetime and the polling interval are returned |
| TokenFlows.Service.HandleDeviceApprove | internal/services/entra/token.go:232-275 | which error comes first, and that only a verified user approves (what may be bound is `TokenRequests.BoundIff`) |
| TokenFlows.Service.TokenDeviceCode | internal/services/entra/token.go:277-297 | invalid, pending or minted, in that order |
| TokenFlows.Service.TokenRefresh | internal/services/entra/token.go:187-209 | the stored audience, normalized, is minted; a different requested one is an error |
| TokenFlows.Service.TokenPassword | internal/services/entra/token.go:159-185 | only a verified user is minted for, for the requested audience |
| TokenFlows.FirstApproverWins | internal/store/directory.go:753-776 | over every run with fresh codes, a pending code becomes bound to the first principal that approves it in time, and to nobody else ever |
| TokenFlows.DeviceFlowIsExact | internal/services/entra/token.go:211-297 | whatever comes in between, an exchange mints for that principal, is pending while there is none, and is refused after expiry |
| TokenFlows.OneCodeOnePrincipal | internal/services/entra/token.go:277-297 | two tokens minted for one device code are for one principal |
| TokenFlows.ApprovalBindsOne | internal/store/directory.go:762-776 | with distinct user codes an approval binds exactly one device code, or none and says so |
| TokenFlows.RunKeepsDistinct | internal/store/directory.go:753-776 | over every run with fresh user codes they stay distinct |
| TokenFlows.RunKeepsLineage | internal/services/entra/token.go:187-209 | over every run, each refresh token has the principal of its chain's first grant, that grant's audience normalized once for each refresh, and a day from its own issue |
| TokenFlows.RefreshFlowIsExact | internal/services/entra/token.go:187-209 | within a day of its token's issue a refresh mints for that principal and that audience normalized once more; no requested scope changes it |
| TokenFlows.ChainSettles | internal/services/entra/token.go:202-208 | two refreshes of one chain mint for one principal, and for one audience once it is plain |
| TokenRequests.BoundIff | internal/services/entra/token.go:211-275 | in every run of requests, a device code is bound to p if and only if, since its last start, the first request that typed the user code handed out, up to letter case and outer blanks, with a password that checked, in time, gave p |
| TokenRequests.FailedCheckChangesNothing | internal/services/entra/token.go:159-275 | an approval or password grant with a blank user name, a blank password or a failed check is refused and changes nothing |
| TokenRequests.ExchangeIff | internal/services/entra/token.go:277-297 | in every run, an exchange mints for p if and only if its device code is bound to p and not expired, for the scope or, without one, the resource |
| TokenRequests.PasswordIff | internal/services/entra/token.go:159-185 | a password grant mints for exactly the user that the check gave |
| TokenRequests.RequestedIsAsked | internal/services/entra/token.go:49-55 | the scope precedes the resource |
| TokenRequests.RefreshIff | internal/services/entra/token.go:187-209 | in every run, a refresh mints for exactly the principal and the normalized audience of the last answer that carried its token, within a day, and only if no other audience is asked for |
| TokenRequests.TokensNeedProof | internal/services/entra/token.go:66-297 | in every run, through however many refreshes, a token is for somebody whose password checked, in a password grant or in the approval of a device code |
| AppConfig.Store.SetAppConfigKV | internal/store/app_observe.go:131-140 | upserts one key-value; an empty store or key is an error that changes nothing |
| AppConfig.Store.ListAppConfigKV | internal/store/app_observe.go:159-177 | exactly the store's key-values that pass the filter, each once, ordered by key and label |
| AppConfig.Store.UpsertAppConfigSnapshot | internal/store/app_observe.go:520-551 | a new snapshot copies every key-value of the store, no insert conflicting; an existing one only changes status |
| AppConfig.Store.ListAppConfigSnapshotKV | internal/store/app_observe.go:590-612 | exactly the captured key-values that pass the label filter, each once, ordered by key and label |
| AppConfig.Store.DeleteAppConfig | internal/store/app_observe.go:100-128 | the cascade, or a rollback that leaves all five tables as they were |
| AppConfig.AllCopied | internal/store/app_observe.go:540-549 | the row-by-row copy inserts exactly one row for every key-value of the store |
| AppConfig.SnapshotIsFrozen | internal/store/app_observe.go:518-551 | over every run, a snapshot reads back exactly the key-values present when it was first PUT, until a delete finds a store of its name |
| AppConfig.DeleteIsByName | internal/store/app_observe.go:100-128 | a delete clears everything under the store's name and nothing else; one that finds no row changes nothing |
| AppConfigHistory.ListedIff | internal/store/app_observe.go:131-177 | after any calls, a key-value is listed if and only if it was the last written under its key and label, its store's name was not cleared since, and it passes the filter |
| AppConfigHistory.SnapshotListedIff | internal/store/app_observe.go:518-612 | and in a snapshot, if and only if it was so when the snapshot was first PUT, and passes the label filter |
| AppConfigHistory.StatusIff | internal/store/app_observe.go:520-551 | a snapshot's status is what its last PUT asked for, "ready" when it asked for none |
| Redaction.RedactMap | internal/services/monitor/inject.go:322-344 | the result is one that some iteration order of the map can give |
| Redaction.RedactValue | internal/services/monitor/inject.go:346-371 | the same for every nested value, with lists and strings cut at their bounds |
| Redaction.ResultsAreSafe | internal/services/monitor/inject.go:322-371 | whatever the order, the result nests no deeper than the depth, every sensitive key at any level is hidden, maps have at most 65 entries, lists 64, strings 1027 bytes |
| Redaction.SensitiveKeysAreHidden | internal/services/monitor/inject.go:308-344 | the same for the redactor's own notion of a sensitive key |
| Redaction.SensitiveIff | internal/services/monitor/inject.go:308-320 | a key is sensitive if and only if, outer blanks aside and in any letter case, it contains "password" or "secret", ends in "token", or is one of the three other listed words |
| Redaction.SecretsAreHidden | internal/services/monitor/inject.go:308-344 | every result hides the value of each such key at every level, and a key that is none keeps what its value redacts to |
| Redaction.TameIsUnchanged | internal/services/monitor/inject.go:322-371 | a value with nothing to hide or to cut comes out as it is |
| Redaction.IdempotentIffSmall | internal/services/monitor/inject.go:322-371 | redacting again changes nothing, for every order, if and only if no visited map has more than 64 keys |
| Redaction.SmallIsIdempotent | internal/services/monitor/inject.go:322-371 | the forward half, for every two results |
| Redaction.LargeIsNotIdempotent | internal/services/monitor/inject.go:322-371 | the other half, with the two results that differ |

## Left out

- HTTP, JSON, XML, TLS, the TCP accept loop, deadlines and the protocol header exchange: input and output.
- The ARM CRUD services over one table: they would add only easy members.
- Cryptography: SAS verification and signing, hashing, password checks and minting are uninterpreted parameters.
- Write failures of a connection: writes succeed, as in the code's own settled sends.
- The memory that a list header with a huge count makes the parser allocate, and the stack that deeply nested described values make it use: a panic in the model is an invalid slice, not exhaustion.
- Aliasing of link objects: links are values in the session's map; the session never shares one.
- SQL beyond ordered selection, primary keys, growing ids, ORDER BY, rollback and LIKE: store errors and the length limit of LIKE patterns.
- Text outside ASCII: letter case and white space are ASCII, regular expressions are those the glob compiler writes, without the engine's size limits.
- The per-role action predicates: a catalogue says which role grants which action.
- The Service Bus topics and their subscriptions: the same table operations under other names.
- Clocks before the year 0: a storage queue timeout that overflows to an earlier time is cut off there.
- Typed nil maps inside a redacted value, which the redactor returns as nil.
- The client-credentials grant, which issues no refresh token and so touches neither table.
- TokenFlows.Service.HandleDeviceCode: the verification_uri and message of the reply are not modelled, because they are the service's base address with fixed text.
- StorageQueue.HiddenRun: stated for clocks up to the year 9999, because past it the stored strings no longer sort by time (`Rfc3339.PastYear9999TheOrderBreaks`).
- TokenFlows.DeviceFlowIsExact: stated for approvals and expiries up to the year 9999, for the same reason.
- TokenRequests.BoundIff: stated for approvals and expiries up to the year 9999, for the same reason; so is `TokenRequests.ExchangeIff`.
- StorageQueueHeads.DequeueServes: stated for clocks and timeouts up to the year 9999 and below the overflow, for the same reasons.
- Uniqueness of drawn codes and tokens: the run theorems of `TokenFlows` take it as a condition on the run (`TokenFlows.FreshRun`); those of `TokenRequests` need none.
