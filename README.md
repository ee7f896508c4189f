# sw push hub, modelled in Dafny

A model of the push hub of nzlov/sw, a WebSocket push server written in Go.

Clients open a connection and log in with a user, a client id and a token. A login binds the connection and registers it under the user. Registration replays the user's unacknowledged messages, five per push frame. Once bound, a client can:

- acknowledge message ids (`a` frames);
- set or clear tags on its user (`t` frames).

An admin gateway publishes messages to explicit users and to every user holding one of the message's tags. Each recipient gets a delivery record and a push on every connection it has. With the Redis cluster bus enabled, each message is replicated to the other nodes; a node ignores its own envelopes.

The model is sequential. It has these modules:

| module | file | models |
|---|---|---|
| `Json` | json.dfy | decoded JSON values, Go type-assertion panics, and `fmt.Sprint` of decoded values |
| `Wire` | wire.dfy | the client.go helpers: keepalive constants, inbound frame normalisation, `resp`, `istoss`, and the outbound frames of a connection queue |
| `Auth` | auth.dfy | the MD5 login token; the digest is a parameter |
| `Store` | store.dfy | the three tables of model.go as in-memory row sequences, with the queries and bulk updates the hub runs on them |
| `Replay` | replay.dfy | the offline replay loop of `Register` as a specification function |
| `Protocol` | protocol.dfy | the frame dispatcher of `ClientHandler`, as a decision over the decoded frame |
| `Hub` | hub.dfy | the hub: `sm`, the tag update and the recipient lookup, plus the `Node` class. `Node` holds the connection registry, the tables and the bus, and its methods change them in place |
| `TestClient` | testclient.dfy | the test client in client/client.go: the `-tags` flag parser and the acknowledging read loop |

Storage and bus failures are inputs of the operations that can meet them (`TagFaults`, `PublishFaults`, the `fails` flag of `Acker`, `Fetch.Failed`). A failed storage operation is logged and the operation carries on, as in the Go code, except that a failed batch fetch ends the replay (node.go:174-176).

Three behaviours of the code are easy to misread, and the model keeps them:

- **Fault reply.** The reply to a panicking frame is built with `resp("e", …)`. It therefore has `t` "r" and `rt` "e".
- **Refusals before login.** A tag update or an unknown frame sent before login is refused with `rt` "a".
- **UnRegister.** It deletes the slot `users[user][clientid]` even when a newer connection with the same client id now holds that slot. The displaced older connection stays in the registered set until its own unregistration.

## Model

| member | source | states |
|---|---|---|
| Json.AsString | node.go:379 | the assertion `.(string)` succeeds exactly on strings and yields the string; otherwise it panics with the runtime's "interface conversion" text naming the value's dynamic type |
| Json.AsNumber | node.go:385 | the assertion `.(float64)` succeeds exactly on numbers and yields the number; otherwise it panics with the runtime text for `float64` |
| Json.AsArray | node.go:408 | the assertion `.([]interface{})` succeeds exactly on arrays and yields the items; otherwise it panics with the runtime text for `[]interface {}` |
| Json.AsObject | node.go:415 | the assertion `.(map[string]interface{})` succeeds exactly on objects and yields the fields; otherwise it panics with the runtime text for `map[string]interface {}` |
| Json.IntText | node.go:333 | `fmt.Sprint` of an int64 is a minus sign exactly for negative numbers, then decimal digits, and reading it back gives the number |
| Json.DigitsValue | node.go:333 | the decimal digits of a number read back as that number |
| Json.DigitsBelow | client.go:76 | a number has at most k digits exactly when it is below ten to the k |
| Json.FloatText | client.go:76 | `fmt.Sprint` of an integral float64 below a million in magnitude is the integer text; larger ones carry the sign and end with their decimal exponent |
| Json.ExpText | client.go:76 | the exponent form starts with the sign and ends with the exponent's digits |
| Json.Sprint | node.go:362 | `fmt.Sprint` prints a string as itself and a missing correlation id as `<nil>` |
| Wire.PingBeforePongDeadline | client.go:12-21 | a write deadline is shorter than the ping period, the ping period is shorter than the pong wait, and it leaves six seconds of slack |
| Wire.Resp | client.go:81-83 | the response frame starts with `{"t":"r","rt":"`, and its length is the four arguments plus 36 characters |
| Wire.RespRoundTrip | client.go:81-83 | reading the four fields back out of `resp` returns its arguments, provided none contains a quote and the code has no comma (nothing is escaped) |
| Wire.Istoss | client.go:73-79 | one string per id, in order, each being `fmt.Sprint` of the id (that is, `IdStrings`) |
| Wire.TrimSpace | node.go:379-380 | the result is the input minus its leading and trailing white space; all-white-space input gives the empty string |
| Wire.TrimShape | client.go:68 | trimming keeps a slice that neither starts nor ends with white space, cuts only white space, and adds no newline |
| Wire.Normalize | client.go:68 | a normalised frame is a slice of the newline-free frame with only white space cut from either end; it has no newline and no white space at either end |
| Wire.NormalizeIdempotent | client.go:68 | normalising twice is the same as normalising once |
| Auth.TokenAccepted | client/client.go:31-35 | the test client's token is accepted by the node's check for the same inputs |
| Auth.CheckTokenMD5 | auth.go:8-12 | the check accepts exactly the token the client computes from the same secret, user, client id and timestamp |
| Auth.TokenFieldsRun | auth.go:8-12 | the fields are concatenated without separators, so a token issued for one user and client id passes for any user and client id with the same concatenation (user "a" on client "bc" and user "ab" on client "c", say) |
| Store.TaggedUsers | node.go:263-267 | the users holding any of the tags, in both directions |
| Store.PendingIds | node.go:158-164 | the user's unacknowledged message ids, in both directions |
| Store.FetchRows | node.go:174 | the fetched rows are exactly the rows of the table whose id is in the batch |
| Store.FetchPositions | node.go:174 | the fetched rows sit at strictly increasing table positions, so they come in table (creation) order |
| Store.AckRows | node.go:327 | exactly the user's rows of the listed ids become acknowledged; nothing else changes |
| Store.DropTags | node.go:252 | the kept rows are rows of the table, and none of them has the user and a deleted tag |
| Store.AckIdempotent | node.go:324-330 | repeating an acknowledgement changes nothing |
| Store.PendingAfterAck | node.go:324-330 | after an ack, the acking user's pending list loses exactly the acked ids, in order; other users' lists are unchanged |
| Store.DropTagsCount | node.go:251-255 | after the delete, the user has no row for a deleted tag, and every other row keeps its count |
| Store.PendingAppend | node.go:309-315 | a new unacknowledged delivery row adds its id to that user's pending list, and to no other user's |
| Replay.Batch | node.go:168-173 | the batch is the next one to five ids; it is shorter than five only at the end of the list |
| Replay.Items | node.go:185-191 | one push item per fetched row, in row order, with the row's id, its creation time as the timestamp, and its data |
| Replay.Frames | node.go:165-203 | every frame of the replay is a push frame |
| Replay.FramesBound | node.go:165-203 | each batch yields at most one frame |
| Replay.ReplayBound | node.go:165-203 | n pending ids give at most ceil(n/5) frames, and none when there are none |
| Replay.FramesAt | node.go:167-197 | frame k is the push of batch k (ids 5k to 5k+4); every batch up to k returned rows |
| Replay.FramesStop | node.go:174-200 | the replay stops only at the end of the list, on a failed fetch or on an empty fetch |
| Replay.ReplayedArePending | node.go:158-203 | on the real tables, every replayed message is stored and is unacknowledged for that user |
| Replay.FramesReachEnd | node.go:165-203 | when every batch returns rows, the replay runs to the end of the id list |
| Replay.StoredIdPushed | node.go:167-191 | a stored id of batch k goes out in frame k |
| Replay.ReplayCoversPending | node.go:158-203 | conversely, when every pending id is stored, the replay sends ceil(n/5) frames and pending id p goes out in frame p/5, so every pending message is pushed, batch by batch, in order |
| Protocol.FaultReply | node.go:359-364 | the deferred recovery replies with `rt` "e", the correlation id as `fmt.Sprint` prints it, FAIL and the panic text |
| Protocol.RespondTo | node.go:375 | every reply echoes the correlation id as `fmt.Sprint` prints it: with a string id it is the requested reply, otherwise the assertion panics and it is the fault reply |
| Protocol.Decide | node.go:372-424 | only a connection that is not logged in is bound, never to a blank user or client id; every reply echoes the correlation id; a frame is ignored exactly when the connection is logged in and its type is none of "l", "a", "t" |
| Protocol.BindsOnlyOnAcceptedLogin | node.go:373-399 | a connection is bound iff it is unbound and sent a login that is well-typed, has non-blank trimmed credentials and an accepted token. It is bound to the trimmed ids with an OK reply, and is registered iff the correlation id is a string |
| Protocol.SecondLoginRefused | node.go:374-377 | a login on a bound connection gets FAIL |
| Protocol.LoginRefusals | node.go:379-388 | blank credentials get FAIL with a reason; a rejected token gets AUTH (the fault reply when `i` is not a string) |
| Protocol.UnboundRejected | node.go:400-421 | before login, every frame other than a login gets one AUTH reply with `rt` "a" (the fault reply when `i` is not a string) and nothing else |
| Protocol.BoundDispatch | node.go:400-424 | after login, `a` acknowledges without a reply, `t` updates tags and replies OK (the fault reply when `i` is not a string), and any other type is ignored; an `a` frame whose `id` is not an array, or a `t` frame whose `d` is not an object, gets the fault reply with the assertion's panic text |
| Hub.Sm | node.go:336-350 | the union of the lists, each string once |
| Hub.SplitTags | node.go:220-230 | keys with value `true` form one list and keys with value `false` the other; other values are ignored |
| Hub.TagRules | node.go:217-256 | after an update, a `true` tag has a row and is not duplicated; a `false` tag has none; other rows are unchanged (each rule holds when its storage step succeeds) |
| Hub.InsertTags | node.go:240-249 | one new row per `true` tag that is neither already held nor failing to insert |
| Hub.TagUpdateCounts | node.go:231-255 | the inserts followed by the delete leave exactly the row counts of `TagRowsAfter` |
| Hub.TagUpdate | node.go:217-256 | the tag table afterwards has exactly the row counts of `TagRowsAfter` |
| Hub.Recipients | node.go:262-268 | the recipients are the explicit users plus, when the message has tags and the lookup succeeds, the users holding one of them |
| Hub.Resolve | node.go:262-268 | the recipient list has no duplicates and holds exactly the recipients |
| Hub.DeliveryRowsShape | node.go:309-315 | the new delivery rows are unacknowledged rows of the message, at most one per recipient, and every recipient whose insert succeeds has one |
| Hub.AppendedDeliveries | node.go:309-315 | the delivery rows of a duplicate-free recipient list are one unacknowledged row per recipient whose insert succeeded, after the untouched old rows |
| Hub.SentToStep | node.go:316-320 | delivering to one more recipient extends the queues of exactly that recipient's connections |
| Hub.SentToSet | node.go:308-321 | a frame delivered to the recipient list reaches the subscribed connections of exactly the recipient set |
| Hub.Node.SubscribedUser | node.go:149-156 | only a connection logged in as a user sits in that user's slots |
| Hub.Node.constructor | node.go:68-73 | a node starts with no connections, no registrations and empty tables |
| Hub.Node.Accept | node.go:434-441 | a new connection gets the next id and an empty open queue, and is not logged in |
| Hub.Node.Send | node.go:196 | a frame is appended to one connection's queue |
| Hub.Node.Register | node.go:145-204 | the connection joins the registered set and takes its user's slot for its client id, keeping the user's other slots; its queue then receives the replay frames |
| Hub.Node.ReplayTo | node.go:165-203 | the loop appends exactly `Frames` of the pending ids to the queue |
| Hub.Node.UnRegister | node.go:206-215 | an unregistered connection is left alone. A registered one leaves the set, its queue is closed, and the slot of its user and client id is deleted whoever holds it |
| Hub.Node.Tager | node.go:217-256 | the tag table afterwards has exactly the counts of `TagRowsAfter`; nothing else changes |
| Hub.Node.Deliver | node.go:316-320 | exactly the connections in the user's slots receive the frame |
| Hub.Node.Publish | node.go:258-322 | A local publish stores the message unless the insert fails and, when clustered, puts it on the bus unless the publish fails; a replica does neither. The registry and tags are unchanged. Each recipient whose row insert succeeds gets one unacknowledged delivery row, and each subscribed connection of a recipient gets one push stamped with the creation time (local) or the envelope time (replica) |
| Hub.Node.StoreAndReplicate | node.go:269-293 | the message row is appended unless its insert fails; the envelope goes on the bus when clustered unless the publish fails; nothing else changes |
| Hub.Node.FanOut | node.go:308-321 | the delivery rows are appended in recipient order, and every recipient's connections receive the frame |
| Hub.Node.Acker | node.go:324-330 | the user's delivery rows of the ids become acknowledged unless the update fails |
| Hub.Node.ClusterReceive | node.go:121-132 | undecodable payloads and this node's own envelopes change nothing; any other envelope is published as a replica with its timestamp |
| Hub.Node.ClientHandler | node.go:357-425 | a malformed frame changes nothing; a decoded frame has the effect its `Decide` step describes |
| Hub.Node.Apply | node.go:372-424 | each decision's effect on the queue, the binding, the registry and the tables |
| TestClient.Split | client/client.go:69 | at least one piece, and no piece contains the separator |
| TestClient.SplitJoin | client/client.go:101 | joining the pieces with the separator gives back the input |
| TestClient.Entry | client/client.go:72-76 | `-x` clears tag x, any other entry sets the whole entry as a tag, and writing the result back gives the entry |
| TestClient.EntryOfText | client/client.go:72-76 | any tag can be cleared, and any tag not starting with '-' set, by writing its entry |
| TestClient.ApplyEntries | client/client.go:69-78 | the map holds exactly the tags named by the entries |
| TestClient.LastEntryWins | client/client.go:68-78 | each tag gets the value of the last entry that names it |
| TestClient.TagSpec | client/client.go:68-78 | no frame for an empty flag; otherwise the loop builds exactly the entries' map |
| TestClient.TagSpecExample | client/client.go:23 | "a,-b" sets "a" and clears "b" |
| TestClient.FlagReachesTags | client/client.go:68-83 | with no storage failure, after the hub applies the frame, the user has at least one row for a tag the flag last set and none for a tag it last cleared |
| TestClient.Acks | client/client.go:101-126 | at most one ack per piece |
| TestClient.OnlyPushesAcked | client/client.go:103-107 | undecodable pieces change nothing; while the target's type is not "m", pieces of other types send no ack |
| TestClient.AckReplies | client/client.go:101-127 | the loop sends exactly the acks of `Acks`, and leaves the reused target as `Acks` says |
| TestClient.PushAcked | client/client.go:107-125 | a push piece is acknowledged with exactly its ids, in order |
| TestClient.OthersNotAcked | client/client.go:103-107 | an undecodable piece and a piece of another type send no ack |
| TestClient.StaleIdsAcked | client/client.go:103-113 | a push piece without a message list acknowledges the previous frame's ids again |
| TestClient.PushIds | client/client.go:107-113 | one id list per push piece, never more lists than pieces |
| TestClient.CompletePiecesAcked | client/client.go:101-127 | when every piece carries both fields, the acks are exactly the push pieces' id lists, in order |
| TestClient.AckIdsRoundTrip | client/client.go:109-125 | ids sent as JSON strings come back from `istoss` unchanged |

The model also uses plain definitions that carry no contract of their own; their meaning is stated by the members above:

- `Json.Field` (node.go:372): `m[key]`, nil for a missing key.
- `Auth.TokenMD5` (client/client.go:31-35): the client's token, stated by `Auth.CheckTokenMD5` and `Auth.TokenAccepted`.
- `Replay.TableFetch` (node.go:174): the batch query as a fetch function, stated by `Store.FetchRows` and `Store.FetchPositions`.
- `TestClient.AsTagFrame` (client/client.go:79-83): the frame's `d` object, used by `TestClient.FlagReachesTags`.
- `TestClient.Merge` (client/client.go:103): decoding into the reused target, used by `TestClient.StaleIdsAcked` and `TestClient.PushAcked`.
- `TestClient.Pieces` (client/client.go:101-103): the decoded pieces of one message, used by `TestClient.AckReplies`.
- `Hub.DeliveryRows` (node.go:309-315): the delivery rows of a publish, stated by `Hub.DeliveryRowsShape` and `Hub.AppendedDeliveries`.
- `Wire.ReplyText` (client.go:81-83): the bytes of a `Reply` frame via `resp`, stated by `Wire.Resp` and `Wire.RespRoundTrip`.
- `Wire.IdStrings` (client.go:73-79): the strings `istoss` makes, stated by `Wire.Istoss`.

## Left out

- Transport and concurrency. The WebSocket upgrade, the reader and writer goroutines, write deadlines, pings, compression and the bounded queue are not modelled; each queue is an unbounded sequence. A publish runs atomically, not in a goroutine that races with registrations.
- Storage and Redis are not modelled. The tables are in-memory sequences in insertion order, and every failure is an explicit input.
- The pending-id query orders by an `addtime` column that model.go never declares. So `Register` takes the pending id list and the batch fetch as inputs. `Replay.ReplayedArePending` states what they are on the in-memory tables. A failed pending-id query leaves the list empty.
- Hub.Node.Publish: gorm is taken to fill `CreatedAt` before the insert, so a failed message insert still stamps the push with the current time.
- JSON encoding and decoding are not modelled. Inbound frames arrive decoded (`Inbound`); a push frame is the datatype `Out`; envelopes on the bus are `Envelope` values.
- Cluster receive decodes every payload into one reused `ClusterMessage` in node.go, so a payload that lacks a field would inherit it from the previous one. `Hub.Node.ClusterReceive` takes each payload as fully decoded or undecodable.
- JSON numbers are integers. The float64-to-int64 conversion of the login timestamp, and rounding of non-integral or very large numbers, are not modelled.
- Auth: MD5 and hex encoding are a parameter (`digest`).
- The status codes `C_OK`, `C_FAIL` and `C_AUTH` are defined outside the files modelled here. They are the symbolic `Code`, and `Wire.ReplyText` takes their text as a parameter.
- Not modelled at all: the admin HTTP gateway (admin.go, client/admin.go), configuration (config.go), the program entry points (main.go, the test client's `main` apart from the flag parser and the read loop), logging, and `CheckSignMD5`.
- TestClient.AckReplies: decoding is a parameter that yields each piece's type and message list or "undecodable". Two decoder effects are not captured: reuse of stale elements inside the message slice, and the partial update left by a type error.
- Hub.Node.Register requires a logged-in, open connection. `ClientHandler` only calls it after a successful login on a connection whose reader is still running.
- Strings are sequences of Unicode code points. Go works on bytes in the frame normalisation (client.go:68) and in the flag split (client/client.go:73), so text that is not valid UTF-8 is not covered.
