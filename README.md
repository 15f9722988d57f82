# Session state and event handlers of the chatapp signalling server

This project models the in-memory session state of the chatapp back end, a
socket.io relay for a WebRTC video chat, and proves properties of it. The
repository has two variants of the server. app.ts is the current one and
app.js the older one. Each keeps three lists:

- the roster `users` of `{socketId, username}` entries;
- the chat log `messages` of `{username, message}` entries;
- the broadcaster list, `activeBroadcasters` in app.ts and `broadcasts` in app.js.

Socket handlers and the `/clear-messages` route change these lists. Node's
event loop runs each handler to completion, so each handler is one method of
a `ServerState` class (`AppTs.ServerState`, `AppJs.ServerState`). The lists
are `seq` fields. Every emitted event is appended to an `outbox` field, tagged
with a symbolic audience (`Session.Audience`):

- `ToSender` for `socket.emit`;
- `ToOthers` for `socket.broadcast.emit`;
- `ToAll` for `io.emit`;
- `ToTarget` for `io.to(id)`;
- `ToTargetExceptSender` for `socket.to(id)`, which never reaches the sender.

`Session.Receivers` maps an audience and a set of connected ids to the ids
that receive the emit.

The modules are:

- `Session`: users, messages, audiences and delivery;
- `Roster`: `users.find` and `users.filter`;
- `Slots`: the broadcaster list, the capacity of 4 and both variants' grant rules;
- `AppTs` and `AppJs`: one server class per variant, plus scenario methods.

Each class has a `Valid()` invariant. It says the broadcaster list holds at
most 4 ids and every relayed payload in the outbox is addressed to one named
socket. The constructor establishes it. Every handler keeps it (`ensures
old(Valid()) ==> Valid()`), for every socket id. So from the empty start the
broadcaster list never holds more than 4 ids. `SentSignalsReachOnlyTheirTargets`
turns this into delivery: in any such state, every relayed payload sent so far
reaches at most its named target.

No id appears twice in the broadcaster list. In app.ts this is part of
`Valid()`. In app.js it is a separate invariant, `Distinct()`, because only
this rule depends on the id: the request handler keeps it for every non-empty
id (see below).

SDP descriptions, ICE candidates, the Twilio `iceServers` value and the
`callUser` payload are type parameters. The server never looks inside them.

Behaviours of the code a reader might not expect:

- `initializeSession` has no guard against a second call on the same socket. Both variants append a second roster entry (`AppTs.InitializeTwice`).
- Both variants check the broadcast cap before the duplicate test. Both denials send the same `{approved: false}`, so the order cannot be seen.
- `endBroadcast` announces `broadcastEnded` to the others even when the socket held no slot.
- app.ts `disconnect` does nothing for a socket with no roster entry, so such a socket keeps its broadcast slot. It never emits `broadcastEnded` (`AppTs.AliceAndBob`, `AppTs.DisconnectFreesSlot`).
- app.js `disconnect` frees the slot whether or not the socket had a roster entry. It emits one `userLogout` per removed entry, from inside the filter. It then always throws a ReferenceError: its log line reads `user`, which is not declared in that scope. It is modelled as a loop, because the filter callback emits as it goes.
- app.js `sentMessage` from a socket with no roster entry throws a TypeError before it changes anything.
- Each throw is the result `Crashed(...)`. Every change made before the throw stays.
- app.js denies a request when the list length equals 4 (`=== 4`, not `>= 4`) or when `broadcasts.find(...)` is truthy. The `=== 4` test still keeps the cap for every id: a list that starts empty reaches 4 before it could pass it (`Slots.JsGrantKeepsSlots`).
- `find` returns the id it found, and the empty string is falsy. So two requests with the id `""` both get a slot (`AppJs.EmptyIdGrantedTwice`). Socket.io never assigns an empty id. On a list that keeps both invariants, the app.js rule agrees with the app.ts rule for every non-empty id (`Slots.JsGrantsAgreesWithTs`).
- app.js `callUser` with no argument (`undefined` or `null`) throws a TypeError at `call.socketId` before it sends anything.
- `/clear-messages` calls `res.send(...).status(202)`. The status is set after the reply has gone out, so Express's default applies. When the request is fresh (Express's `req.fresh`, its cache check against the body's ETag), the reply is 304 with an empty body. Otherwise it is 200 with `{response: "messages cleared"}`. The model takes `req.fresh` as a parameter.

types.ts, which declares `User`, `Message` and the event maps, is not part of
this model. Its shapes are taken from how app.ts builds its values.

## Model

| member | source | states |
|---|---|---|
| `Session.TargetedDelivery` | app.ts:146 | a `socket.to(target)` emit reaches only the target, and only when it is connected and is not the sender |
| `Session.RoomDelivery` | app.js:53 | an `io.to(target)` emit reaches only the target when connected, the sender included |
| `Session.FanOutDelivery` | app.ts:85-87 | `socket.broadcast.emit` reaches all but the sender; `io.emit` reaches all; `socket.emit` reaches only the sender |
| `Roster.FindUser` | app.ts:106 | returns None exactly when no entry has the socket id; otherwise the first entry with that id |
| `Roster.WithoutUserMembers` | app.ts:96 | `WithoutUser` (the filter) keeps exactly the entries of other sockets, and no entry of the socket survives |
| `Roster.UsersOfMembers` | app.js:75-82 | the entries `UsersOf` drops are exactly the socket's entries; kept plus dropped add up to the roster length |
| `Roster.WithoutUserConcat` | app.ts:96 | `WithoutUser` distributes over concatenation, so the kept entries keep their order |
| `Roster.FilterStep` | app.js:75-82 | one step of `WithoutUser` and `UsersOf`: an entry of the socket is dropped, any other entry is appended to the kept list |
| `Roster.WithoutAbsentUser` | app.js:75-82 | a roster with no entry for the socket is unchanged by `WithoutUser`, and `UsersOf` drops nothing |
| `Slots.WithoutMembers` | app.ts:160 | `Without` (the filter) removes every copy of the id and keeps every other id |
| `Slots.WithoutConcat` | app.ts:160 | `Without` distributes over concatenation, so the other broadcasters keep their order |
| `Slots.WithoutAbsent` | app.js:121 | `Without` on an id that is not in the list leaves the list unchanged |
| `Slots.WithoutKeepsValid` | app.ts:97 | releasing with `Without` keeps the list free of duplicates, and frees exactly one slot when the id held one |
| `Slots.GrantKeepsValid` | app.ts:126-139 | a request granted by `TsGrants` keeps the list within capacity 4 and free of duplicates |
| `Slots.JsGrantsAgreesWithTs` | app.js:100 | on a valid list and a non-empty id, `JsGrants` holds exactly when `TsGrants` does |
| `Slots.JsGrantKeepsSlots` | app.js:100-103 | a grant under `JsGrants` keeps a list of at most 4 within 4 for every id, and adds no duplicate for a non-empty id |
| `Slots.JsGrantsEmptyIdTwice` | app.js:100 | the empty id is falsy, so `JsGrants` grants it when it already holds a slot, making a duplicate; `TsGrants` denies it |
| `AppTs.SignalReachesOnlyItsTarget` | app.ts:144-157 | an offer, answer or candidate in the outbox reaches only its named target, never the sender |
| `AppTs.SentSignalsReachOnlyTheirTargets` | app.ts:144-157 | in every state that keeps the invariant, each offer, answer or candidate sent so far reaches at most its target, never its sender |
| `AppTs.ServerState.constructor` | app.ts:52-54 | all three lists and the outbox start empty; the invariant holds |
| `AppTs.ServerState.Connect` | app.ts:77 | the new socket alone gets the relay servers, the roster and the log as they are; no state changes |
| `AppTs.ServerState.InitializeSession` | app.ts:79-90 | appends exactly one entry, acks the sender, announces the entry to the others; no duplicate guard |
| `AppTs.ServerState.Disconnect` | app.ts:92-103 | with a roster entry, removes all of the socket's entries and its slot, and sends one `userLogout` to the others; with none, changes and emits nothing |
| `AppTs.ServerState.SendMessage` | app.ts:105-121 | a known sender's message is appended under the first entry's name and sent to all; an unknown sender changes and emits nothing |
| `AppTs.ServerState.RequestBroadcast` | app.ts:123-142 | approved exactly when fewer than 4 broadcast and the requester is not one; then the id is appended; the answer goes only to the requester |
| `AppTs.ServerState.Offer` | app.ts:144-147 | forwards the sender id and the description to the target only; no state changes |
| `AppTs.ServerState.Answer` | app.ts:149-152 | forwards the sender id and the description to the target only; no state changes |
| `AppTs.ServerState.Candidate` | app.ts:154-157 | forwards the sender id and the candidate to the target only; no state changes |
| `AppTs.ServerState.EndBroadcast` | app.ts:159-164 | removes the id from the broadcaster list, keeps the rest in order, always announces `broadcastEnded` to the others |
| `AppTs.ServerState.ClearMessages` | app.ts:56-64 | empties the log; roster, broadcasters and outbox unchanged; replies 200 with "messages cleared", or 304 with an empty body to a fresh request |
| `AppTs.FifthRequestDenied` | app.ts:126-139 | from the empty state, four distinct requesters are approved and a fifth is denied |
| `AppTs.RepeatRequestDenied` | app.ts:132-136 | a second request from the same socket is denied |
| `AppTs.InitializeTwice` | app.ts:79-90 | two initialisations of one socket leave two identical roster entries |
| `AppTs.DisconnectFreesSlot` | app.ts:95-102 | after the fourth broadcaster disconnects, a new socket gets a slot exactly when that broadcaster had initialised |
| `AppTs.AliceAndBob` | app.ts:79-142 | join, chat, broadcast and leave give exactly the expected outbox; the slot is freed and no `broadcastEnded` is sent |
| `AppJs.SignalReachesOnlyItsTarget` | app.js:108-118 | an offer, answer or candidate in the outbox reaches only its named target, never the sender |
| `AppJs.CallReachesOnlyItsTarget` | app.js:52-57 | an incoming call in the outbox reaches only its named target |
| `AppJs.LogoutsEach` | app.js:75-82 | `Logouts`: disconnect sends one `userLogout` to the others per removed entry, in roster order |
| `AppJs.LogoutsConcat` | app.js:75-82 | the `Logouts` of a concatenated roster are the two parts' logouts in order |
| `AppJs.SentSignalsReachOnlyTheirTargets` | app.js:52-118 | in every state that keeps the invariant, each relay sent so far reaches at most its target, never its sender, and each call at most its target |
| `AppJs.ServerState.constructor` | app.js:34-36 | all three lists and the outbox start empty; the invariant holds |
| `AppJs.ServerState.Connect` | app.js:50-60 | the new socket gets `connected`, then `iceServers`, then `loggedInUsers`; no state changes |
| `AppJs.ServerState.CallUser` | app.js:52-57 | sends `incomingCall` with the call's data and caller to the named socket only; a missing argument throws a TypeError and sends nothing; no state changes |
| `AppJs.ServerState.InitializeSession` | app.js:62-71 | acks the sender with its entry and the current log, appends the entry, announces it to others; no guard |
| `AppJs.ServerState.Disconnect` | app.js:74-85 | removes all of the socket's entries with one logout each, frees its slot with or without an entry, then throws a ReferenceError |
| `AppJs.ServerState.SentMessage` | app.js:87-96 | completes exactly for a known sender, appending and sending to all; otherwise throws a TypeError and changes nothing |
| `AppJs.ServerState.RequestBroadcast` | app.js:98-106 | approved exactly when the length is not 4 and `find` is falsy; then the id is appended; the cap holds for every id and no-duplicates for non-empty ids |
| `AppJs.ServerState.Offer` | app.js:108-110 | forwards the sender id and the description to the watcher only; no state changes |
| `AppJs.ServerState.Answer` | app.js:112-114 | forwards the sender id and the description to the broadcaster only; no state changes |
| `AppJs.ServerState.Candidate` | app.js:116-118 | forwards the sender id, the flag and the candidate to the named socket only; no state changes |
| `AppJs.ServerState.EndBroadcast` | app.js:120-123 | removes the id, keeps the rest in order, always announces `broadcastEnded` to the others |
| `AppJs.ServerState.ClearMessages` | app.js:38-44 | empties the log and nothing else; replies 200 with "messages cleared", or 304 with an empty body to a fresh request |
| `AppJs.FifthRequestDenied` | app.js:100-105 | from the empty state, four distinct requesters are approved and a fifth is denied |
| `AppJs.EmptyIdGrantedTwice` | app.js:100-105 | the empty id is granted two slots |
| `AppJs.UnknownSenderCrashes` | app.js:87-96 | a message from an uninitialised socket throws and leaves the log and outbox empty |
| `AppJs.DisconnectCleansThenCrashes` | app.js:74-85 | a twice-initialised broadcaster's disconnect removes both entries with two logouts, frees its slot and throws |
| `AppJs.UninitialisedDisconnectFreesSlot` | app.js:83-84 | an uninitialised socket's slot is freed on disconnect, and the handler still throws |

## Left out

- The Express app, the CORS headers, the HTTP server and `listen` (app.ts:20-50, 185-189; app.js:14-31, 126): I/O plumbing.
- The Twilio `tokens.create()` call and the exit when it fails (app.ts:15-19, 190-194; app.js:6-12): a foreign network call. `iceServers` is the constructor's argument.
- Socket.io transport behaviour (delivery, reconnection, ping timeout): audiences are symbolic, and `Session.Receivers` only says who is addressed.
- The SIGTERM shutdown, the log-only `error` and `connectionFailed` handlers, and all `console.log` calls (app.ts:166-183): they change no session state.
- The `/debug` route (app.ts:66-72): it only reads the three list lengths.
- Express's cache check (ETag generation, `If-None-Match`, `Cache-Control`, `If-Modified-Since`): it belongs to Express, not to this server. Its verdict `req.fresh` is the `reqFresh` parameter of `ClearMessages`.
- What happens after a throw. Node would report an uncaught exception and normally end the process. The model returns `Crashed` with the state as the handler left it, and says nothing about later events.
- Concurrency: the event loop runs one handler at a time, so each handler is one atomic method.
- Client arguments of other shapes. Neither file checks its arguments at run time; app.ts's types are checked only at compile time. The model assumes `username` and `text` are strings. It also assumes every relay target is one socket id: `targetSocketId` (app.ts:144-157), `watcherSocketId`, `broadcasterSocketId` and `id` (app.js:108-118), and `call.socketId` (app.js:53). socket.io's `to()` also accepts an array of rooms, and then one relay reaches every socket named in it. So `Unicast`, `SignalReachesOnlyItsTarget`, `CallReachesOnlyItsTarget`, `SentSignalsReachOnlyTheirTargets` and `TargetedDelivery`/`RoomDelivery` hold only for a single-id target. For `callUser`, only a missing argument is modelled, as a TypeError. A `call` object without `socketId` is not modelled.
