# Minikitex and its services, in Dafny

A model of five parts of the repository, with proofs of what each part is for.

1. **The RPC stack.** The field-id encoding (`Wire`), the codec driven by an IDL value (`Generic`), the code that the
   generator emits (`Typed`, and `OrderCodec` for a generated file as it stands), the Python codec (`PyClient`),
   frames (`Frame`), calls over a connection (`Session`), and the IDL parser (`Idl`, `GoStrings`, `IdlText`) with all
   the spellings of a line and of a document that it reads (`IdlLines`, `IdlRoundTrip`). `Codec` gives a struct body
   its meaning once, and the Go decoders are proved against it; the Python decoder has its own definition by index,
   which `PyClient.DecodersAgreeIff` relates to it on encodings. `EndToEnd` puts the layers together: a typed call
   over a connection returns what the implementation answers.
2. **The board content store.** The soft-deleting tree in memory (`MemStore`, over `Content`) and on MySQL
   (`MysqlStore`); how far the two agree over runs (`MysqlRefinement`); the invariants of every run
   (`ContentInvariants`); what one operation does to the effect of another (`ContentLaws`); short runs that reach the
   failing inputs (`ContentWitnesses`); the migration that removes the list layer (`Flatten`, `FlattenProperties`) on
   either store; and versioned pages in both stores against the log of calls (`Pages`). `Sorting` has the orders.
3. **The live log.** The terminal-style line buffer (`LiveLine`), and its fan-out to bounded, lossy subscribers with
   the follower loop (`LiveLog`, in `LiveRun.dfy`).
4. **The coalescing worker** of the deploy hook (`Puller`): two flags and any interleaving of threads.
5. **Replicas and peers.** A configuration value that follows a key of etcd (`ConfigVar`), and the connection set of
   the order service with its round robin (`Peers`).

`dafny verify dfyconfig.toml` checks everything.

## How the model is laid out

Objects whose methods update fields in the repository are classes here, loops are loops, and each method's `ensures`
ties the new state to a function of the old one; the properties are lemmas about those functions and about all runs
of them. Protocols between several parties (`Session`, `Puller`, `ConfigVar`, `LiveLog`) are step functions over a
state that also records the run.

A few methods are loops that the repository writes inline: `DrainQueue`, `PageItems`, `ShowVersions` (content_mem.go),
`FlattenDetails`, `FlattenModule` (content_flatten.go), `Collect`, `SelectChildren`, `SoftDelete`, `MaxVersion` and
`ShowRows` (content_mysql.go; `SelectChildren`, `SoftDelete` and `MaxVersion` are SQL statements), `SplitContent` and
`Copy` (frame.go), `FindOpen` (idl.go), `Send` and `Close` of `LiveRun` (channel operations of ops.go, with what would
panic as a precondition). `Call` is cut into `Send` and `Receive` because the server takes its turn in between.
`Flatten.ContentStore` is the Go interface, and its methods pass each call on to the store behind it. A `range` over a
Go map visits the keys in an arbitrary order, chosen anew by every loop. What comes from outside is a parameter: the
time (`now`), which dials, sends and writes succeed, and when a deadline or a context ends.

Places where the code and its own words differ; the model follows the code.

- `config/etcd.go:46` says a missing key keeps the fallback. `sync` keeps whatever value is held, so a key deleted
  while the client is away leaves the old value: `ConfigVar.ReplicatesIff` and `ConfigVar.StaleValueSurvives`.
- `projects/board/content_mem.go:10` says the memory store means the same as the MySQL one. Over runs that stay a
  forest the tables agree up to `updated_at` exactly as long as no call is one of the first two below, and with the
  visible times exactly as long as none is one of the first three (`MysqlRefinement.MysqlRunsAsMemory`). Short runs
  reach them (`ContentWitnesses`).
  - Valid new data with an invalid schema version: memory keeps the data (`MysqlRefinement.UpdateSameIff`).
  - The MySQL delete stops when it has 100000 ids. In a forest that matters exactly for a node with at least 99999 live
    children and a live grandchild: the grandchildren stay alive under deleted nodes
    (`MysqlRefinement.ForestDeleteIff`, `MysqlRefinement.SqlDeleteKeepsForestIff`,
    `ContentWitnesses.OversizedDeleteReachable`).
  - A put or an update that writes what is there already keeps the old time on MySQL (`MysqlRefinement.PutTimeIff`,
    `MysqlRefinement.UpdateTimeIff`).
  - An update that fails for several reasons may report another one (`MysqlRefinement.UpdateErrorIff`).
  - MySQL lists children by the time of creation, memory by id: the same order exactly when the clock has not gone back
    between them (`MysqlRefinement.ListingSameIff`).
  - Off forests, cycles of parent links included, the MySQL delete takes the subtree exactly when
    `MysqlStore.Complete` (`MysqlStore.DeleteIff`).
  - The pages are the same but for the limits of the MySQL listings, and for the order of the paths where the collation
    of the column is not that of the bytes (`Pages.MysqlAnswersAsMemory`, `Pages.PathsSameIff`).
- `MoveNode` does not check its target, as its comment says. `ContentInvariants.MoveKeepsForestIff` gives exactly the
  moves that keep the forest; unique places need no condition (`ContentInvariants.RunKeepsPlaces`).
- The parser accepts any 64-bit field id, the writer keeps 16 bits: `GenericProperties.RoundTripIff`. The Python
  client raises instead: `PyClient.SameBytesIff`.
- A line end split across two writes discards the line it ends: `LiveLine.ChunkingIff`. A bare carriage return in the
  first line of a chunk, over a pending line, makes a subscriber's text differ from the log unless that line is written
  again: `LiveLog.WriteFaithfulIff`, `LiveLog.ReturnBreaksReassembly`.
- An address repeated in a discovery result gives it two users. The next call that still lists it leaks a connection,
  or, if it was one connection listed twice, the call that drops it closes it twice: `Peers.NoLeakIff`,
  `Peers.NoDoubleCloseIff`, with the inputs in `Peers.RepeatedAddressLeaks` and `Peers.RepeatedAddressClosesTwice`.

## Model

| member | source | states |
|---|---|---|
| `Wire.Writer.FieldI64` | wire/wire.go:33-37 | the buffer grows by the field's bytes: tag, id modulo 65536, two's complement big-endian |
| `Wire.Writer.FieldString` | wire/wire.go:39-44 | the buffer grows by tag, id, 4-byte length and the bytes of the string |
| `Wire.Writer.FieldBool` | wire/wire.go:46-54 | the buffer grows by tag, id and one byte |
| `Wire.Writer.Stop` | wire/wire.go:56-56 | the buffer grows by the stop tag |
| `Wire.FieldLayout` | wire/wire.go:10-54 | byte by byte, where the type, the id, the length and the value of a field stand |
| `Wire.Reader.Unsigned` | wire/wire.go:119-153 | u8 to u64: the k-byte number at the cursor, which moves past it; at a short end an error and the cursor stays; always in bounds |
| `Wire.Reader.NextField` | wire/wire.go:65-78 | the tag and id of the next field, or the stop tag, and where the cursor ends |
| `Wire.Reader.ReadI64` | wire/wire.go:80-83 | the signed number of the next eight bytes |
| `Wire.Reader.ReadString` | wire/wire.go:85-96 | the length-prefixed string, or an error with the cursor after the prefix |
| `Wire.Reader.ReadBool` | wire/wire.go:98-101 | true for the byte 1 only |
| `Wire.Reader.Skip` | wire/wire.go:103-117 | moves past exactly the bytes that reading a value of that tag would consume, and fails when it would fail |
| `Wire.ValueRoundTrip` | wire/wire.go:33-101 | reading a value back from what was written gives the value and leaves what follows, if its length fits 32 bits |
| `Wire.HeaderRoundTrip` | wire/wire.go:33-78 | the header of a written field reads back as its tag and its id modulo 65536 |
| `Wire.ReadsConsume` | wire/wire.go:65-153 | on any bytes, a read leaves a suffix, and one that succeeds consumes at least a byte |
| `Wire.TakeValueExtends` | wire/wire.go:80-117 | a read that succeeds looks only at the bytes it consumes |
| `Codec.ScanOfBody` | generic/generic.go:50-70 | the decode loop on a written body finds exactly the known fields in order, skips the unknown ones, and stops before what follows |
| `Codec.ScanConsumes` | generic/generic.go:50-70 | the loop ends on every byte string, leaving a suffix; success consumes at least the stop tag |
| `Codec.ScanExtends` | generic/generic.go:50-70 | bytes after the stop tag change nothing |
| `Codec.ScanPrefixFree` | generic/generic.go:50-70 | an input cut anywhere before the byte where a scan stopped is rejected |
| `Codec.HitsPlausible` | generic/generic.go:50-70 | whatever the bytes, a value is decoded only for a field with a 16-bit id, and with that field's type |
| `Codec.BodyLayout` | wire/wire.go:56-56 | a body starts with the type byte of its first field and ends with a zero byte |
| `Generic.WriteField` | generic/generic.go:89-113 | writes the field's bytes for a value of its kind, and nothing otherwise |
| `Generic.ReadValue` | generic/generic.go:115-126 | reads by the IDL type, not by the wire tag |
| `Generic.Encode` | generic/generic.go:17-41 | the loop returns the body of the given, non-nil fields in struct order, or the first error |
| `Generic.Decode` | generic/generic.go:43-72 | the loop, on every byte string, returns the map of the scan's values or its error |
| `Generic.DecodeTurn` | generic/generic.go:50-70 | what one turn does to the collected map and the unread bytes, which shrink |
| `GenericProperties.EncodeSucceedsIff` | generic/generic.go:29-40 | encoding succeeds exactly when every given field has a supported type and a value of the shape that type takes |
| `GenericProperties.EncodeOutcome` | generic/generic.go:17-41 | bytes pass unseen, even for an unknown struct; the errors of each kind of input; JSON text encodes as its map |
| `GenericProperties.OnlyWrongKind` | generic/generic.go:89-113 | with supported types a value of the wrong kind is the only thing refused |
| `GenericProperties.SchemaEvolution` | generic/generic.go:17-72 | a reader with struct T gets from a writer with struct S exactly the shared given fields, whatever follows the stop tag |
| `GenericProperties.RoundTripIff` | generic/generic.go:17-72 | decoding restores the data exactly when the given ids fit 16 bits and the strings 32 |
| `GenericProperties.TruncatedBodyRejected` | generic/generic.go:43-72 | every strict prefix of an encoding is rejected by every agreeing reader |
| `GenericProperties.DecodingReadsAPrefix` | generic/generic.go:43-72 | decoding of arbitrary bytes depends on one first part only: every shorter input fails, nothing after it matters |
| `GenericProperties.DecodedFits` | generic/generic.go:43-72 | only fields whose ids fit ever appear, with values that fit |
| `Typed.Encode` | cmd/gen/main.go:84-97 | the emitted encoder writes every field of the struct in order |
| `Typed.Decode` | cmd/gen/main.go:99-129 | the emitted loop returns the struct that the scan's values give, starting from zero values, or its error |
| `Typed.SchemaEvolution` | cmd/gen/main.go:84-129 | members of shared written fields hold their values, all other members are 0, empty or false |
| `Typed.RoundTrip` | cmd/gen/main.go:84-129 | decoding an encoded struct gives the struct, whatever follows |
| `Typed.SameEntries` | doc.go:10-13 | the generic encoder walks a full map to the entries that the generated encoder writes |
| `Typed.SameBytes` | doc.go:10-13 | the generated and the generic encoder write the same bytes for the same data |
| `Typed.SameDecoded` | doc.go:10-13 | on every byte string the generated and the generic decoder fail with the same error or return the same fields, with 0, empty and false for fields that are absent |
| `OrderCodec.EncodeGetOrderResp` | gen/order/order.go:137-145 | the generated file writes what the template's codec writes for this struct |
| `OrderCodec.DecodeGetOrderResp` | gen/order/order.go:147-175 | the generated loop and switch decode every byte string as the template's codec does |
| `OrderCodec.GetOrderRespRoundTrip` | gen/order/order.go:137-175 | a response is decoded from its encoding, whatever follows, if its strings have lengths under 2^32 |
| `OrderCodec.GenericWritesSame` | gen/order/order.go:137-145 | the generic client writes the same bytes from the members under their names in the IDL |
| `OrderCodec.GenericReadsSame` | gen/order/order.go:137-145 | and reads the response by these names, whatever follows |
| `PyClient.EncodeStruct` | example/py/client.py:28-44 | the loop returns the fields' bytes, or raises on the first field that does not convert or fit |
| `PyClient.DecodeStruct` | example/py/client.py:47-76 | the index loop ends on every byte string, with the dict of known fields or the exception |
| `PyClient.SameBytesIff` | example/py/client.py:28-44 | Python writes the bytes of the Go encoder exactly when ids and lengths fit, and raises otherwise |
| `PyClient.UnsupportedRaises` | example/py/client.py:28-44 | a given field of another type raises, whatever comes before it |
| `PyClient.DecodersAgreeIff` | example/py/client.py:47-76 | on every agreeing encoding the IDL-directed Go loop and the tag-directed Python loop return the same fields exactly when all its strings are valid UTF-8, those of unknown fields included; otherwise Python raises |
| `PyClient.TruncatedBodyRejected` | example/py/client.py:47-76 | Python rejects every encoding cut before its end, whatever its strings, although its slices shorten silently |
| `Frame.WriteFrame` | runtime/frame.go:28-45 | filling the buffer by offsets puts the frame's bytes on the stream |
| `Frame.ReadMsg` | runtime/frame.go:47-84 | reads one frame off the stream with the same result and the same unread bytes as the definition of a frame |
| `Frame.SplitContent` | runtime/frame.go:60-84 | every slice taken is in bounds; short method and header lengths are errors |
| `Frame.RoundTripIff` | runtime/frame.go:28-84 | a frame comes back exactly when its method and header have less than 64 KB and its content at most 1 MB |
| `Frame.FrameLayout` | runtime/frame.go:28-45 | byte by byte, where the length, the type, the number, the two prefixed parts and the body of a frame stand |
| `Frame.TruncatedFrame` | runtime/frame.go:47-60 | a stream cut inside a frame ends in an error |
| `Frame.BadLength` | runtime/frame.go:52-55 | a length is refused exactly under 9 or over 1 MB, and then nothing after it is read |
| `Frame.AcceptedReencodes` | runtime/frame.go:47-84 | any accepted frame re-encodes to exactly the bytes read |
| `Frame.StreamBijection` | runtime/frame.go:28-84 | the stream of a list of frames decodes to that list, and only such streams decode |
| `Session.Client.Send` | runtime/client.go:27-43 | the counter steps by one modulo 2^32, whether or not the write succeeds, and a call frame that is written goes out under it |
| `Session.Client.Receive` | runtime/client.go:44-57 | reads one frame and checks sequence, then exception, then type; past the deadline it returns without having read |
| `Session.Server.Handle` | runtime/server.go:44-48 | registers the handler under its name, replacing an earlier one |
| `Session.Server.Use` | runtime/server.go:38-42 | appends middleware, inside of what was there |
| `Session.Server.Wrap` | runtime/middleware.go:41-46 | the loop from the last to the first makes the first middleware the outermost |
| `Session.ChainTransparent` | runtime/middleware.go:41-60 | middleware that passes calls through, however much of it, leaves every answer as the handler gave it |
| `Session.Server.ServeOne` | runtime/server.go:71-100 | one turn answers one frame: not a call, unknown method, handler error or reply, through the middleware, under the same sequence number; a failing write is ignored and the loop goes on |
| `Session.MiddlewareOrder` | runtime/middleware.go:41-46 | the middleware given first acts first |
| `Session.FrameTypes` | runtime/frame.go:9-14 | the type byte of a call is 1, of its reply 2, of an error 3 |
| `Session.Enabled` | runtime/client.go:27-57 | in every state of a run, exactly when a call can begin, fail, time out or complete, and when the server can answer |
| `Session.CallOutcome` | runtime/server.go:86-100 | over every run through pass-through middleware, a call with no earlier timeout returns what the handler registered under its name says, or "unknown method " and the name |
| `Session.CallOnce` | runtime/client.go:27-57 | a call on a quiet connection returns its handler's answer and leaves the connection quiet |
| `Session.RunKeepsInv` | runtime/client.go:27-57 | over any run, what is in flight is exactly the unanswered requests and the unread replies, in order |
| `Session.SessionSafety` | runtime/client.go:27-57 | a call with no earlier timeout gets its own handler's answer; a later one, while fewer than 2^32 calls were begun from the request it reads the answer to, fails with a mismatch and never returns another request's body |
| `Session.CheckReply` | runtime/client.go:48-56 | the check on the answer to an earlier request passes exactly when the number of calls begun in between is a multiple of 2^32 |
| `Session.ForeignReplyReachable` | runtime/client.go:27-57 | the bound is exact: after 2^32 calls that time out, a call of any other request can return the first request's answer as its own |
| `Session.RepliesInOrder` | runtime/server.go:71-100 | in every run the server has answered a prefix of the requests, each once, in order |
| `EndToEnd.AcceptedSpecEncodes` | generic/generic.go:17-41 | for every text that parses and every struct of it, encoding succeeds exactly when each given value has the shape of its field, and fails only with the wrong-kind error |
| `EndToEnd.OneEncoding` | doc.go:10-13 | the typed, the generic and the Python client write the same bytes |
| `EndToEnd.SomeDataForAll` | doc.go:10-13 | every struct value has data on which the three clients write those bytes |
| `EndToEnd.CallReturnsAnswer` | cmd/gen/main.go:147-175 | in every run, through pass-through middleware, a typed call with no earlier timeout decodes exactly what the implementation answered, or its error text |
| `Idl.FieldByID` | idl/idl.go:146-153 | the first field with the id, or none |
| `Idl.CheckIds` | idl/idl.go:179-187 | the loop with the seen map accepts a struct exactly when its ids are distinct |
| `Idl.Validate` | idl/idl.go:164-189 | the loops return the first error class in the order of the checks, whatever the order of the struct map |
| `Idl.ValidationIff` | idl/idl.go:164-189 | validation accepts exactly the specs with a service, methods with existing structs, and distinct ids |
| `IdlText.FindOpen` | idl/idl.go:320-337 | the scan from the right finds where the parenthesis depth returns to zero |
| `IdlText.ParseKVLoop` | idl/idl.go:340-353 | the loop builds the map in which a later key wins |
| `IdlText.Parse` | idl/idl.go:63-127 | the state machine over the lines of the scanner, which stops at a line of 64 KB, then validation |
| `GoStrings.ScanOfJoined` | idl/idl.go:65-75 | scanning text gives back its lines up to the first that is too long |
| `IdlText.AcceptedSpec` | idl/idl.go:63-189 | every accepted spec resolves its structs, has distinct ids and only supported types |
| `IdlText.MatchOpenIs` | idl/idl.go:315-338 | the scan finds the parenthesis that the last one closes, counting, or there is none |
| `IdlText.AcceptedField` | idl/idl.go:287-312 | an accepted field has a 64-bit id, one of the three types and a word for its name |
| `IdlText.AcceptedMethod` | idl/idl.go:226-285 | an accepted method has a word for its name and names its request and its response |
| `IdlLines.ParseFieldOf` | idl/idl.go:287-312 | a field parses back from every spelling: negative ids, qualifier, default value, annotation and separators |
| `IdlLines.ParseMethodOf` | idl/idl.go:226-285 | a method parses back from every spelling: response first or last, argument with or without a name, attributes in either order, quotes of either kind, the verb in any case, separators |
| `IdlLines.SplitBlock` | idl/idl.go:315-338 | a trailing block is peeled exactly when it looks like an annotation |
| `IdlLines.KVAdds` | idl/idl.go:340-353 | one more attribute adds its pair, over an earlier one with the same key |
| `IdlLines.KVIgnores` | idl/idl.go:340-353 | a part without an equals sign is passed over |
| `IdlRoundTrip.StripWritten` | idl/idl.go:216-224 | blanks around a text, and a comment of either kind after it, leave no trace |
| `IdlRoundTrip.RemarksDoNotMatter` | idl/idl.go:76-76 | in every state a line with blanks and a comment steps the parser as the bare line does |
| `IdlRoundTrip.ParserReads` | idl/idl.go:76-123 | what every spelled line does: headers, fields, methods, closing and skipped lines with anything after them, ignored lines |
| `IdlRoundTrip.UnexpectedLine` | idl/idl.go:84-106 | at the top level nothing else is accepted |
| `IdlRoundTrip.NamelessBlock` | idl/idl.go:89-100 | a block without a name is refused |
| `IdlRoundTrip.ParseOfDocument` | idl/idl.go:63-189 | every document of blocks in any order, with comments, blank lines and indentation anywhere, parses to what its blocks mean, exactly when that passes the validation and no line has 64 KB or more; the error otherwise |
| `IdlRoundTrip.ParseOfRendered` | idl/idl.go:63-353 | so the canonical text of every valid spec parses to the spec, unless a line is too long |
| `MemStore.MemContent.PutNode` | projects/board/content_mem.go:45-88 | all checks in order, then overwrite and revive the holder of the place, or add a node with the next id; keeps ids and unique places |
| `MemStore.MemContent.UpdateNode` | projects/board/content_mem.go:90-116 | what is written and in which order, including the data kept on a refused version |
| `MemStore.MemContent.DeleteNode` | projects/board/content_mem.go:118-140 | marks exactly the nodes reachable over live child links and returns their number |
| `MemStore.MemContent.DrainQueue` | projects/board/content_mem.go:124-139 | the queue loop ends and marks the reachable set once each, even on cyclic parent links |
| `MemStore.MemContent.GetNode` | projects/board/content_mem.go:142-150 | the one visible record with that id, or not found when there is none: never put, or deleted |
| `MemStore.MemContent.FindChild` | projects/board/content_mem.go:152-161 | the answer does not depend on the order of the map: it is the one node with the place, if live and of the type |
| `MemStore.MemContent.ListChildren` | projects/board/content_mem.go:163-180 | the requested page of the newest-first list of matching live children, and the total |
| `MemStore.MemContent.PageItems` | projects/board/content_mem.go:176-178 | the copying loop gives exactly the page's slice |
| `MemStore.MemContent.MoveNode` | projects/board/content_mem.go:265-282 | re-parents only, refusing a taken place; keeps ids and unique places whatever the target |
| `MemStore.QueueStep` | projects/board/content_mem.go:126-138 | one turn of the queue loop keeps its invariant and uses up one node |
| `MemStore.QueueDone` | projects/board/content_mem.go:126-139 | when the queue is empty the deleted nodes are the whole subtree |
| `ContentInvariants.RunKeepsPlaces` | projects/board/content_mem.go:45-88 | over every run, any moves included, ids stay as given out and (parent, slug) stays unique counting deleted nodes |
| `ContentInvariants.RunFromEmpty` | projects/board/content_mem.go:45-140 | every run from an empty store whose moves have allowed targets is a forest: live nodes under live parents of the right type |
| `ContentInvariants.MoveKeepsForestIff` | projects/board/content_mem.go:265-282 | a move keeps the forest exactly when the target would have passed the check that is left out |
| `ContentInvariants.PutKeepsForest` | projects/board/content_mem.go:45-88 | putting, overwriting and reviving keep the forest |
| `ContentInvariants.DeleteKeepsForest` | projects/board/content_mem.go:118-140 | deleting a subtree leaves no live node under a deleted one |
| `ContentInvariants.HolderHasType` | projects/board/content.go:136-155 | the node that an upsert overwrites already has the type being written |
| `ContentInvariants.TypesNeverChange` | projects/board/content_mem.go:45-140 | over every such run nodes stay in the table with the type they had |
| `ContentInvariants.DepthAtMostThree` | projects/board/content.go:23-28 | every node is at the depth of its type, at most three, and all ancestors of a live node are live |
| `ContentInvariants.FailedUpdateIsCleanIff` | projects/board/content_mem.go:90-116 | a failed update leaves no trace except exactly when valid new data comes with a refused version |
| `ContentLaws.PutOutcome` | projects/board/content_mem.go:45-74 | which puts succeed, and which error the others get, in the order of the checks, with the types and the reserved slug spelt out |
| `ContentLaws.ForestMeans` | projects/board/content.go:23-28 | in a forest, so in every run with allowed moves, every node is of a type and under its like, and no module is called "modules" |
| `ContentLaws.MoveOutcome` | projects/board/content_mem.go:265-282 | which moves succeed, which error the others get, and that only the parent changes |
| `ContentLaws.PutStores` | projects/board/content_mem.go:45-88 | a successful put leaves the cleaned input alive under the returned id and touches no other node; a taken place keeps its id and creation time, otherwise the id is new |
| `ContentLaws.PutTwice` | projects/board/content_mem.go:75-82 | upsert is idempotent: the same input again changes only the time of the update |
| `ContentLaws.DeleteCounts` | projects/board/content_mem.go:118-140 | deletion reports exactly how many live nodes it takes away |
| `ContentLaws.DeletedIsGone` | projects/board/content_mem.go:37-43 | no node of a deleted subtree can be deleted, updated, moved or put under |
| `ContentLaws.PutRevives` | projects/board/content_mem.go:75-82 | putting to the place of a deleted node revives that node with its id, type and creation time; what was deleted with it stays deleted |
| `ContentLaws.MoveBack` | projects/board/content_mem.go:265-282 | moving back undoes a move exactly, whatever the target was |
| `Flatten.PagesAreAPrefix` | projects/board/content_mem.go:163-180 | pages 1 to n of any size put together are the first n * size elements, without gap or repeat |
| `Flatten.All` | projects/board/content_flatten.go:11-23 | the pager ends with every matching live child once, in the order in which the store, memory or MySQL, lists them |
| `Flatten.FlattenDetails` | projects/board/content_flatten.go:34-55 | the inner loop does to one list what its definition says, stopping at an error |
| `Flatten.FlattenModule` | projects/board/content_flatten.go:29-56 | the lists of one module in turn |
| `Flatten.FlattenLists` | projects/board/content_flatten.go:10-59 | on either store, the nested loops with their pages read in between are the migration function, counts and errors included |
| `FlattenProperties.OneListAccount` | projects/board/content_flatten.go:34-55 | one list: moves and skips add up, and the list is deleted exactly when nothing stays |
| `FlattenProperties.OneListFailsIff` | projects/board/content_flatten.go:34-55 | on every store the only error of one list is that it is gone when it should be deleted |
| `FlattenProperties.AccountsAdd` | projects/board/content_flatten.go:28-57 | accounts of disjoint sets of lists, migrated one after the other, add up |
| `FlattenProperties.MigrationAccount` | projects/board/content_flatten.go:10-59 | the complete account over all live lists of a legacy store, in memory and on MySQL |
| `FlattenProperties.MovedPlusSkipped` | projects/board/content_flatten.go:10-59 | moved plus skipped is the number of live details under live lists |
| `FlattenProperties.MigrationConserves` | projects/board/content_flatten.go:10-59 | each node is unchanged, or a detail now directly under its list's module, or an emptied list now deleted; it never fails |
| `FlattenProperties.NoListLeft` | projects/board/content_flatten.go:10-59 | when nothing was skipped no live list is left |
| `FlattenProperties.NewLayoutIff` | projects/board/content_flatten.go:8-9 | on a legacy store that is otherwise a forest, every live node ends under a live node of the type the new layout asks for exactly when nothing was skipped |
| `FlattenProperties.MovedIsFreePlaces` | projects/board/content_flatten.go:38-48 | as many details move as there are places that some detail wants and no node has, deleted nodes included; the rest are skipped, whatever the order of the lists |
| `FlattenProperties.SameNumbers` | projects/board/content_flatten.go:10-59 | so both stores report the same numbers, although they list in different orders |
| `FlattenProperties.SecondRunChangesNothing` | projects/board/content_flatten.go:8-9 | idempotence: a second run moves nothing, skips the same number and leaves the store as it is |
| `MysqlStore.MysqlContent.PutNode` | projects/board/content_mysql.go:96-152 | the checks in order, then an insert or an upsert that revives; a row set to the values it has keeps its time |
| `MysqlStore.MysqlContent.MoveNode` | projects/board/content_mysql.go:397-415 | the same function of the table as in memory |
| `MysqlStore.MysqlContent.UpdateNode` | projects/board/content_mysql.go:154-187 | all arguments are checked first, then the row; one statement writes them, and every failure leaves the table alone |
| `MysqlStore.MysqlContent.DeleteNode` | projects/board/content_mysql.go:190-236 | for every table, cyclic or not, exactly which rows are deleted and which count is reported |
| `MysqlStore.MysqlContent.Collect` | projects/board/content_mysql.go:199-223 | the frontier loop, on every table, finds the set and the count that the levels define |
| `MysqlStore.MysqlContent.SelectChildren` | projects/board/content_mysql.go:202-220 | the live rows under the frontier, each once, in no given order |
| `MysqlStore.MysqlContent.SoftDelete` | projects/board/content_mysql.go:224-234 | the chunks of 500 together delete the live rows of the whole list |
| `MysqlStore.MysqlContent.ListChildren` | projects/board/content_mysql.go:244-264 | the requested page of the live children of a type, the last created first, and the total |
| `MysqlStore.MysqlContent.FindChild` | projects/board/content_mysql.go:240-242 | the one row with the place, if live and of the type |
| `MysqlStore.CollectedIs` | projects/board/content_mysql.go:199-223 | on every table the loop ends after the first level that is empty or brings the count to 100000, with those levels and their count |
| `MysqlStore.LevelsApart` | projects/board/content_mysql.go:201-223 | a row is found at two levels only if the node itself is found again |
| `MysqlStore.CountIff` | projects/board/content_mysql.go:201-223 | the count is the number of rows found exactly until the node itself is found again |
| `MysqlStore.ReachWithin` | projects/board/content_mysql.go:199-223 | on every table only members of the subtree are found |
| `MysqlStore.ReachAllIff` | projects/board/content_mysql.go:199-223 | the levels hold the whole subtree exactly when the next one brings nothing new |
| `MysqlStore.CycleLevels` | projects/board/content_mysql.go:201-223 | on a cycle no level is empty, so only the limit ends the loop |
| `MysqlStore.DeleteIff` | projects/board/content_mysql.go:190-236 | for every table: within the subtree always; the subtree, with its size as count, exactly when the levels are complete before the limit and before the node is found again; under 100000 nodes exactly off cycles |
| `MysqlRefinement.PutSame` | projects/board/content_mysql.go:96-152 | equal tables stay equal up to the time, with the same answer or the same error |
| `MysqlRefinement.PutTimeIff` | projects/board/content_mysql.go:141-145 | the times agree too exactly unless a live node at the place already has the type, title, cleaned data and cleaned version of the input, and another time |
| `MysqlRefinement.UpdateSucceedsIff` | projects/board/content_mysql.go:154-187 | both stores accept the same updates, those of a live node with valid arguments, and return the same node |
| `MysqlRefinement.UpdateErrorIff` | projects/board/content_mysql.go:154-187 | a failed update reports the same error exactly when the node is live or all arguments are valid |
| `MysqlRefinement.ErrorsDiffer` | projects/board/content_mysql.go:169-179 | a missing node with version -1: memory misses the node, MySQL refuses the version |
| `MysqlRefinement.UpdateSameIff` | projects/board/content_mem.go:97-110 | the tables stay equal exactly when no valid new data comes with an invalid version |
| `MysqlRefinement.UpdateTimeIff` | projects/board/content_mysql.go:180-186 | the times of a successful update agree exactly unless nothing it sets is new and the node has another time |
| `MysqlRefinement.ForestHasNoCycle` | projects/board/content_mem.go:118-140 | in a forest no node is on a cycle, because every step down is one deeper |
| `MysqlRefinement.DeleteSameIff` | projects/board/content_mysql.go:190-236 | for all equal tables both stores delete the same nodes and report the same count exactly when the levels are complete |
| `MysqlRefinement.ForestCompleteIff` | projects/board/content_mysql.go:199-223 | in a forest they are complete exactly unless the limit is reached at the children of the node and there are grandchildren |
| `MysqlRefinement.ForestDeleteIff` | projects/board/content_mysql.go:190-236 | so in a forest both stores delete the same, and report the same count, exactly unless the delete is cut off there |
| `MysqlRefinement.CutTakesChildren` | projects/board/content_mysql.go:199-223 | a delete that is cut off takes the node and its children, and none of the grandchildren |
| `MysqlRefinement.SqlDeleteKeepsForestIff` | projects/board/content_mysql.go:190-236 | a delete keeps the forest exactly unless it is cut off |
| `MysqlRefinement.StepTogetherIff` | projects/board/content_mem.go:10-10 | one call on agreeing stores leaves them agreeing, with or without the times, exactly when it is not one of those on which they part, and then is answered alike |
| `MysqlRefinement.MysqlRunsAsMemory` | projects/board/content_mem.go:10-10 | over every run from empty with allowed moves the stores agree after every call exactly when no call is one on which they part, and then answer the next such call alike; the same with the visible times |
| `MysqlRefinement.SmallStoresAgree` | projects/board/content_mem.go:10-10 | for stores under 100000 nodes the late refusal is the only difference in what is stored |
| `MysqlRefinement.ListingSameIff` | projects/board/content_mysql.go:250-251 | the stores list the same children in the same order exactly when, among them, a greater id never has an earlier time |
| `MysqlRefinement.MysqlListsAsMemory` | projects/board/content_mem.go:163-180 | over every run on which they agree and the clock does not go back, both list alike |
| `ContentWitnesses.BadMoveReachable` | projects/board/content_mem.go:265-282 | a run of two puts and a move ends in a node under itself: no forest, a cycle, and deletion counts 1 and 100000 |
| `ContentWitnesses.OversizedDeleteReachable` | projects/board/content_mysql.go:201-201 | a run of 100001 puts, the same in both stores, after which memory deletes all nodes and MySQL leaves a live block under a deleted detail: no forest |
| `ContentWitnesses.LateRefusalReachable` | projects/board/content_mem.go:97-110 | a run after which a refused update leaves its data in memory and nothing on MySQL |
| `Pages.MemPages.PutPage` | projects/board/content_mem.go:182-197 | appends the next version with its time and makes it current, or refuses the path or the files |
| `Pages.MemPages.RollbackPage` | projects/board/content_mem.go:217-231 | moves the current pointer to an existing version, and nothing else |
| `Pages.MemPages.PageFiles` | projects/board/content_mem.go:233-241 | the files of the current version; the index is in range in every run |
| `Pages.MemPages.ListPageVersions` | projects/board/content_mem.go:199-215 | all versions from the newest to the oldest with sorted file names and times, the current one marked |
| `Pages.MemPages.ListPagePaths` | projects/board/content_mem.go:243-254 | exactly the paths with a current version, sorted |
| `Pages.MysqlPages.MaxVersion` | projects/board/content_mysql.go:291-294 | COALESCE(MAX(version), 0) over the rows of the path |
| `Pages.MysqlPages.PutPage` | projects/board/content_mysql.go:266-306 | inserts version MAX + 1 and points the page at it |
| `Pages.MysqlPages.RollbackPage` | projects/board/content_mysql.go:340-359 | points an existing row of the page at an existing version |
| `Pages.MysqlPages.PageFiles` | projects/board/content_mysql.go:361-375 | the join of page and version rows, which has a row for every page |
| `Pages.MysqlPages.ListPageVersions` | projects/board/content_mysql.go:308-338 | the newest 200 versions of a path in board_page, from the newest on |
| `Pages.MysqlPages.ListPagePaths` | projects/board/content_mysql.go:380-395 | at most 1000 paths with a current version in the order of the collation, and any other comes after them |
| `Pages.CurrentIsPointed` | projects/board/content_mem.go:182-231 | over every run the current version is the one last put or rolled back to |
| `Pages.AnswersAreTheLog` | projects/board/content_mem.go:182-231 | after any run, the version, the sorted file names, the time and the mark that a put or a rollback answers with, or its error |
| `Pages.ListingIsTheLog` | projects/board/content_mem.go:199-215 | after any run, the version list is the log from its end, each with its sorted file names and its time, the current one marked |
| `Sorting.BeforeIff` | projects/board/content_mem.go:256-263 | the order of sorted names: a shorter beginning, or smaller at the first byte that differs |
| `Pages.VersionsAreTheLog` | projects/board/content_mem.go:182-231 | over every run the versions of a path are exactly 1 to n with the files and times of its successful puts in order |
| `Pages.FilesArePublished` | projects/board/content_mem.go:182-241 | over every run the served files are those of the last successful put or rollback target |
| `Pages.VersionsImmutable` | projects/board/content_mem.go:182-231 | whatever happens later, the versions so far stay as they are |
| `Pages.PutGetsNextVersion` | projects/board/content_mem.go:182-197 | a put after any run, rollbacks included, gets version n + 1 |
| `Pages.SqlRunSame` | projects/board/content_mysql.go:266-375 | over every run the two tables hold what the memory store holds |
| `Pages.MysqlAnswersAsMemory` | projects/board/content_mysql.go:266-395 | after the same calls both stores answer the next put, rollback, read or listing alike, but for the limits 200 and 1000; the paths if the collation orders them as bytes |
| `Pages.PathsSameIff` | projects/board/content_mysql.go:380-395 | up to 1000 paths are listed alike exactly when the collation orders them as bytes |
| `LiveLine.AbsorbCommits` | platform/server/ops.go:292-306 | committed text is whole lines and only grows; the pending line holds no line end |
| `LiveLine.ShownStaysIff` | platform/server/ops.go:292-306 | feeding text leaves what is shown in front exactly when its first line leaves the pending line in front |
| `LiveLine.ChunkingIff` | platform/server/ops.go:292-306 | feeding two chunks is feeding them joined exactly when the cut does not split a CR LF that ends a non-empty pending line |
| `LiveLine.FeedAddsText` | platform/server/ops.go:292-306 | without a carriage return absorbing appends the text |
| `LiveLog.LiveRun.Absorb` | platform/server/ops.go:292-306 | the byte loop is the line buffer's function |
| `LiveLog.LiveRun.Write` | platform/server/ops.go:308-324 | the delta beyond the longest length sent is offered to every subscriber without blocking; keeps the invariant |
| `LiveLog.LiveRun.Subscribe` | platform/server/ops.go:332-342 | the snapshot, and an open channel in the list or a closed one after finish |
| `LiveLog.LiveRun.Cancel` | platform/server/ops.go:342-351 | takes the channel out of the list, once, without closing it |
| `LiveLog.LiveRun.Finish` | platform/server/ops.go:354-365 | closes every listed channel once and empties the list; a second finish does nothing |
| `LiveLog.LiveRun.Send` | platform/server/ops.go:316-321 | a delta is queued, or lost if 64 wait; callers send on open channels only |
| `LiveLog.LiveRun.Close` | platform/server/ops.go:361-363 | callers close open channels only |
| `LiveLog.RunInv` | platform/server/ops.go:308-365 | the invariant of every interleaving: lengths add up, listed channels are open and distinct, every lossless queue is a slice of the deltas |
| `LiveLog.SubsOpen` | platform/server/ops.go:308-365 | why no channel is closed twice or sent to after close |
| `LiveLog.DeltasAddUp` | platform/server/ops.go:308-324 | in all runs total delta length is `sent`, the longest length ever shown |
| `LiveLog.WriteFaithfulIff` | platform/server/ops.go:308-324 | a chunk keeps deltas and log equal exactly when its first line, restarted by its carriage returns, begins with the pending line; what follows its first newline never matters |
| `LiveLog.RunFaithfulIff` | platform/server/ops.go:308-365 | over every interleaving the deltas are the log after every event exactly when every chunk is of that kind |
| `LiveLog.HarmlessAppends` | platform/server/ops.go:292-324 | so does every chunk with no carriage return in its first line, and every chunk when no line is pending |
| `LiveLog.NoBareReturnsAppend` | platform/server/ops.go:292-324 | runs without bare carriage returns are such runs |
| `LiveLog.Reassembly` | platform/server/ops.go:308-365 | for every interleaving whose chunks all do, snapshot and deltas of a lossless subscriber are the log, up to where it was closed |
| `LiveLog.ReturnBreaksReassembly` | platform/server/ops.go:292-324 | with a bare carriage return over shown text they are not |
| `LiveLog.LostOnlyWhenFull` | platform/server/ops.go:316-321 | a delta is lost exactly when it finds 64 deltas waiting for that subscriber |
| `LiveLog.FinishCloses` | platform/server/ops.go:354-365 | finish closes every listed channel, keeps what is queued and empties the list |
| `LiveLog.CancelStops` | platform/server/ops.go:342-351 | a cancelled channel is never written to or closed again, and the others do not notice |
| `LiveLog.CanFollowToTheEnd` | platform/server/ops.go:308-365 | a subscriber that lost nothing can always receive the rest, and then has the log up to where its channel was closed |
| `LiveLog.FollowLive` | platform/server/http.go:185-216 | sends, in order, a first part of the snapshot without its known prefix, every non-empty delta and the final status, which stands in for a missing error unless it is ok, all of it exactly when the context lives, every send succeeds and the build loads |
| `LiveLog.TextEventsText` | platform/server/http.go:188-214 | these texts are the rest of the snapshot and all deltas, nothing added, dropped or repeated |
| `LiveLog.FollowerHasLogIff` | platform/server/http.go:185-216 | a client that follows its channel to the end has the whole log exactly when the text it already had was a prefix of the snapshot |
| `Puller.PullerFlags.TriggerLocked` | projects/daily-news-hook/app.py:59-65 | the lock section sets the flags as the step does and starts a thread exactly when none runs |
| `Puller.PullerFlags.CheckLocked` | projects/daily-news-hook/app.py:73-77 | the lock section at the end of a turn, and whether the loop goes on |
| `Puller.NoTriggerLost` | projects/daily-news-hook/app.py:50-77 | in every interleaving: one loop and one run at most, pending implies running, no more runs than triggers, and when idle the last run started after the last trigger |
| `Puller.WorkIsConserved` | projects/daily-news-hook/app.py:59-77 | runs done and owed grow only by a trigger that finds nothing pending |
| `Puller.DrainRunsWhatIsOwed` | projects/daily-news-hook/app.py:67-77 | a worker left alone until idle starts exactly the owed runs, exceptions or not |
| `Puller.CanFinish` | projects/daily-news-hook/app.py:67-77 | from every state there is a schedule without triggers to idle, which starts exactly the owed runs |
| `Puller.TriggersCounted` | projects/daily-news-hook/app.py:59-65 | the triggers of a run are all counted |
| `Puller.BurstAddsOneRun` | projects/daily-news-hook/app.py:51-51 | any number of triggers during a run cause exactly one more run |
| `Puller.Progress` | projects/daily-news-hook/app.py:67-77 | without triggers every step uses up a measure of at most 7, and a running worker always has a step |
| `Puller.ReachesIdle` | projects/daily-news-hook/app.py:67-77 | so every schedule without triggers ends, and ends idle |
| `ConfigVar.Var.Set` | config/etcd.go:37-44 | the value is the given one, stored only if it differs |
| `ConfigVar.Var.Sync` | config/etcd.go:56-71 | snapshot, then every decodable event of every message; however they are grouped, it replicates exactly when the key existed, or changed, or the fallback was held; a failing read and a missing key leave the value alone |
| `ConfigVar.ReplicatesIff` | config/etcd.go:56-71 | after following to a revision the variable has the key's value there, or the fallback, exactly when the key existed at the snapshot or changed since, or the fallback was held before |
| `ConfigVar.EventsJoin` | config/etcd.go:64-70 | a watch from the next revision misses nothing and repeats nothing, wherever it is cut |
| `ConfigVar.SessionFollows` | config/etcd.go:56-71 | however commits and deliveries interleave, an unbroken session holds what its snapshot and the later changes give |
| `ConfigVar.ReplicatesWhileUp` | config/etcd.go:46-71 | after any earlier run, while a session is up the variable has the value at the revision followed to exactly when the key existed at its start, or has changed since, or the fallback was held |
| `ConfigVar.FlattenJoins` | config/etcd.go:64-70 | however changes are grouped into messages, their order is kept and none is lost |
| `ConfigVar.NeverGoesBack` | config/etcd.go:46-71 | across sessions the value is always one the key had, or the fallback for an absent key, and its revision never goes back |
| `ConfigVar.FromTheStart` | config/etcd.go:26-71 | the same for every run from a new variable |
| `ConfigVar.StaleValueSurvives` | config/etcd.go:46-63 | a key deleted between sessions leaves its old value in place of the fallback |
| `Peers.Handler.ApplyAddrs` | example/order/main.go:83-117 | the loops over users, addresses and old users give the new users, the dialled connections and the closes, for any failing dials |
| `Peers.UsersInListOrder` | example/order/main.go:83-110 | after any call the users stand in list order, one for each position whose address had a user or could be dialled; the former keep a user, the others are new |
| `Peers.ListedHasUserIff` | example/order/main.go:94-105 | an address has a user after a call exactly when it is listed and had one or one of its positions could be dialled |
| `Peers.Handler.PickUser` | example/order/main.go:39-47 | the user at the old counter modulo their number; the counter wraps at 2^64 |
| `Peers.NoLeakIff` | example/order/main.go:83-117 | after a call the open connections are those of the users exactly when no two different users shared a listed address; how the dials go makes no difference |
| `Peers.NoDoubleCloseIff` | example/order/main.go:111-116 | no connection is closed twice exactly when no user that was listed twice is dropped |
| `Peers.AccountedIff` | example/order/main.go:83-117 | both together: every connection stays open for a user or closed once exactly under these two conditions |
| `Peers.RunAccountedIff` | example/order/main.go:83-117 | over any sequence of lists and dials, every state is accounted for exactly when every call met them |
| `Peers.ConnectionsConserved` | example/order/main.go:83-117 | over every sequence of duplicate-free lists with any failing dials, no connection leaks and none is closed twice |
| `Peers.ConservedFromTheStart` | example/order/main.go:83-117 | so from the start every connection ever dialled belongs to a user or has been closed, once |
| `Peers.KeptAndDropped` | example/order/main.go:83-117 | for any list, a listed peer keeps its identity and an unlisted one is closed by this call |
| `Peers.RepeatedAddressLeaks` | example/order/main.go:99-105 | three calls from an address given twice to a connection that stays open without a user |
| `Peers.RepeatedAddressClosesTwice` | example/order/main.go:111-116 | three calls to a connection that is closed twice |
| `Peers.RoundRobinIsFair` | example/order/main.go:45-46 | any k * n consecutive counter values choose each of n positions k times |
| `Peers.PickTurns` | example/order/main.go:39-47 | k * n picks in a row return each of n peers exactly k times |

## Left out

- `GenericProperties.SchemaEvolution`: writer and reader must give shared ids the same type, and field names must be distinct, which the validation does not check; ids and lengths must fit, for which `GenericProperties.RoundTripIff` has the exact condition.
- `PyClient.SameBytesIff`: `int()`, `str()` and truth testing of values that do not already have the field's type are arbitrary functions.
- `Session.SessionSafety`: frames are within their limits, a write that fails has written nothing, and a call times out before it has read any byte of a reply; a deadline that passes inside a frame is not modelled, nor is a panic in a handler.
- `Session.Server.constructor`: the standard middleware for tracing, metrics and logging is a parameter; what it records is not modelled.
- `EndToEnd.CallReturnsAnswer`: the text of a decoding error is an arbitrary function of the error.
- `IdlText.Parse`: the input is text, not arbitrary bytes, and reading it does not fail; `strings.ToUpper` is upper-casing of ASCII letters.
- `IdlRoundTrip.ParseOfDocument`: names are letters, digits and underscores; URIs hold no comma, quote, parenthesis, `#` or `//`; the words of a line are one blank apart, attributes are spelt `key = "value"`, and a default value is one word.
- `Generic.Encode`: a `float64` is exactly an integer, and JSON text is given as what it parses to.
- `MemStore.MemContent.PutNode`: the checks of slugs and JSON data are arbitrary partial functions, and the current time is a parameter.
- `MysqlStore.MysqlContent.DeleteNode`: a transaction is one step; locking, isolation, SQL errors, gaps in the AUTO_INCREMENT ids and the normal form in which MySQL stores JSON are not modelled.
- `MysqlStore.MysqlContent.ListChildren`: times are texts whose order is that of time, as the format of `fmtTime` has it within one time zone.
- `Pages.MysqlPages.ListPagePaths`: the collation is an arbitrary strict order; that it tells any two clean paths apart is an assumption about the server's default.
- `FlattenProperties.MigrationAccount`: live lists hang on live modules and hold only details, as the old layout had it; no other call runs during the migration.
- `Flatten.All`: listing does not fail; errors of SQL statements are not modelled.
- `LiveLog.FollowLive`: the deltas are given as a list in the order in which the channel yields them; `LiveLog.FollowerHasLogIff` takes them from the channel.
- `ConfigVar.NeverGoesBack`: reads are linearizable, and compaction of the server's history is not modelled.
- `Peers.ConnectionsConserved`: one update at a time; two overlapping calls of `applyAddrs` are not modelled, nor is what happens inside a dial.
- `Peers.PickTurns`: before the 64-bit counter wraps, since a wrap breaks the turn unless n divides 2^64.
- The JavaScript client, whose numbers are floats.
- The Go names that the generator derives; two field names with the same Go name do not compile.
- The map of all live runs and the polling branch that watches a run of another process.
- HTTP handlers, MCP tools, tokens, the web interface, TLB and BAM, and everything that calls git, docker, nginx or certbot.
