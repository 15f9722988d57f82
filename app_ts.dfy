/** app.ts: the current server.  Its session state is three closure-level
    arrays, `users`, `messages` and `activeBroadcasters`, changed by the
    `connection` handler's inner socket handlers and by the `/clear-messages`
    route.  Every handler runs to completion on one socket, so each is one
    method of `ServerState`; what it emits is appended to `outbox`.
    `Ice` is the Twilio `iceServers` value, `Desc` an SDP description and
    `Cand` an ICE candidate; the server never looks inside any of them. */
module AppTs {
  import opened Session
  import opened Roster
  import opened Slots

  /** The server-to-client events app.ts emits. */
  datatype Event<Ice, Desc, Cand> =
    | ConnectSuccess(iceServers: Ice, users: seq<User>, messages: seq<Message>)
    | InitializedSession(user: User)
    | UserJoin(user: User)
    | UserLogout(user: User)
    | NewMessage(message: Message)
    | BroadcastRequestResponse(approved: bool)
    | Offer(from: SocketId, description: Desc)
    | Answer(from: SocketId, description: Desc)
    | Candidate(from: SocketId, candidate: Cand)
    | BroadcastEnded(socketId: SocketId)
  {
    /** The signalling relays, whose payloads are meant for one peer only. */
    predicate IsSignal()
    {
      Offer? || Answer? || Candidate?
    }
  }

  /** A signalling event is sent with `socket.to`, from the socket it names as
      its origin: it reaches its target and never anyone else. */
  predicate Unicast<Ice, Desc, Cand>(e: Emit<Event<Ice, Desc, Cand>>)
  {
    e.event.IsSignal() ==> e.to.ToTargetExceptSender? && e.to.sender == e.event.from
  }

  /** A signalling emit kept by the invariant reaches its named target, if
      that socket is connected and is not the sender, and nobody else. */
  lemma SignalReachesOnlyItsTarget<Ice, Desc, Cand>(e: Emit<Event<Ice, Desc, Cand>>, connected: set<SocketId>)
    requires Unicast(e) && e.event.IsSignal()
    ensures Receivers(e.to, connected)
         == if e.to.target in connected && e.to.target != e.event.from then {e.to.target} else {}
  {
  }

  class ServerState<Ice, Desc, Cand> {
    const iceServers: Ice
    var users: seq<User>
    var messages: seq<Message>
    var activeBroadcasters: seq<SocketId>
    /** Every event emitted so far, in emission order. */
    var outbox: seq<Emit<Event<Ice, Desc, Cand>>>

    /** The invariants the handlers keep: at most four broadcasters, none
        twice, and every signalling payload addressed to one target. */
    ghost predicate Valid()
      reads this
    {
      SlotsValid(activeBroadcasters)
      && forall i :: 0 <= i < |outbox| ==> Unicast(outbox[i])
    }

    /** The state right after `tokens.create()` resolves. */
    constructor (iceServers: Ice)
      ensures this.iceServers == iceServers
      ensures users == [] && messages == [] && activeBroadcasters == [] && outbox == []
      ensures Valid()
    {
      this.iceServers := iceServers;
      users, messages, activeBroadcasters, outbox := [], [], [], [];
    }

    /** On `connection`: the new socket receives the relay servers, the roster
        and the chat log as they are now. */
    method Connect(sid: SocketId)
      modifies this
      ensures outbox == old(outbox) + [Emit(ToSender(sid), ConnectSuccess(iceServers, users, messages))]
      ensures users == old(users) && messages == old(messages)
      ensures activeBroadcasters == old(activeBroadcasters)
      ensures old(Valid()) ==> Valid()
    {
      outbox := outbox + [Emit(ToSender(sid), ConnectSuccess(iceServers, users, messages))];
    }

    /** `initializeSession`: acknowledges the sender, appends one entry to the
        roster and announces it to everybody else.  There is no guard: a
        second call on the same socket appends a second entry. */
    method InitializeSession(sid: SocketId, username: string)
      modifies this
      ensures users == old(users) + [User(sid, username)]
      ensures outbox == old(outbox) + [Emit(ToSender(sid), InitializedSession(User(sid, username))),
                                       Emit(ToOthers(sid), UserJoin(User(sid, username)))]
      ensures messages == old(messages) && activeBroadcasters == old(activeBroadcasters)
      ensures old(Valid()) ==> Valid()
    {
      var user := User(sid, username);
      outbox := outbox + [Emit(ToSender(sid), InitializedSession(user))];
      users := users + [user];
      outbox := outbox + [Emit(ToOthers(sid), UserJoin(user))];
    }

    /** `disconnect`: when the socket has a roster entry, removes all of its
        entries and its broadcast slot and announces the first entry's logout
        to the others; otherwise changes nothing and emits nothing, so the slot
        of a socket that never initialised a session stays taken. */
    method Disconnect(sid: SocketId)
      modifies this
      ensures HasUser(old(users), sid) ==>
                users == WithoutUser(old(users), sid)
                && activeBroadcasters == Without(old(activeBroadcasters), sid)
                && outbox == old(outbox) + [Emit(ToOthers(sid), UserLogout(FindUser(old(users), sid).value))]
      ensures !HasUser(old(users), sid) ==>
                users == old(users) && activeBroadcasters == old(activeBroadcasters) && outbox == old(outbox)
      ensures !HasUser(users, sid)
      ensures messages == old(messages)
      ensures old(Valid()) ==> Valid()
    {
      var disconnectedUser := FindUser(users, sid);
      if disconnectedUser.Some? {
        WithoutUserMembers(users, sid);
        if Valid() {
          WithoutKeepsValid(activeBroadcasters, sid);
        }
        users := WithoutUser(users, sid);
        activeBroadcasters := Without(activeBroadcasters, sid);
        outbox := outbox + [Emit(ToOthers(sid), UserLogout(disconnectedUser.value))];
      }
    }

    /** `sendMessage`: from a socket with a roster entry, appends the message
        under the first entry's name and sends it to everybody, the sender
        included; from any other socket, does nothing. */
    method SendMessage(sid: SocketId, text: string)
      modifies this
      ensures HasUser(old(users), sid) ==>
                var m := Message(FindUser(old(users), sid).value.username, text);
                messages == old(messages) + [m] && outbox == old(outbox) + [Emit(ToAll, NewMessage(m))]
      ensures !HasUser(old(users), sid) ==> messages == old(messages) && outbox == old(outbox)
      ensures users == old(users) && activeBroadcasters == old(activeBroadcasters)
      ensures old(Valid()) ==> Valid()
    {
      var user := FindUser(users, sid);
      if user.Some? {
        var message := Message(user.value.username, text);
        messages := messages + [message];
        outbox := outbox + [Emit(ToAll, NewMessage(message))];
      }
    }

    /** `requestBroadcast`: denied when four sockets already broadcast or the
        requester already does, granted (and the id appended) otherwise; the
        answer goes to the requester only. */
    method RequestBroadcast(sid: SocketId) returns (approved: bool)
      modifies this
      ensures approved <==> |old(activeBroadcasters)| < Capacity && sid !in old(activeBroadcasters)
      ensures activeBroadcasters == if approved then old(activeBroadcasters) + [sid] else old(activeBroadcasters)
      ensures outbox == old(outbox) + [Emit(ToSender(sid), BroadcastRequestResponse(approved))]
      ensures users == old(users) && messages == old(messages)
      ensures old(Valid()) ==> Valid()
    {
      if |activeBroadcasters| >= Capacity {
        outbox := outbox + [Emit(ToSender(sid), BroadcastRequestResponse(false))];
        return false;
      }
      if sid in activeBroadcasters {
        outbox := outbox + [Emit(ToSender(sid), BroadcastRequestResponse(false))];
        return false;
      }
      if Valid() {
        GrantKeepsValid(activeBroadcasters, sid);
      }
      activeBroadcasters := activeBroadcasters + [sid];
      outbox := outbox + [Emit(ToSender(sid), BroadcastRequestResponse(true))];
      approved := true;
    }

    /** `offer`: relays the description, tagged with the sender, to the named
        socket only. */
    method Offer(sid: SocketId, targetSocketId: SocketId, description: Desc)
      modifies this
      ensures outbox == old(outbox) + [Emit(ToTargetExceptSender(targetSocketId, sid), Event.Offer(sid, description))]
      ensures users == old(users) && messages == old(messages)
      ensures activeBroadcasters == old(activeBroadcasters)
      ensures old(Valid()) ==> Valid()
    {
      outbox := outbox + [Emit(ToTargetExceptSender(targetSocketId, sid), Event.Offer(sid, description))];
    }

    /** `answer`: relays the description, tagged with the sender, to the named
        socket only. */
    method Answer(sid: SocketId, targetSocketId: SocketId, description: Desc)
      modifies this
      ensures outbox == old(outbox) + [Emit(ToTargetExceptSender(targetSocketId, sid), Event.Answer(sid, description))]
      ensures users == old(users) && messages == old(messages)
      ensures activeBroadcasters == old(activeBroadcasters)
      ensures old(Valid()) ==> Valid()
    {
      outbox := outbox + [Emit(ToTargetExceptSender(targetSocketId, sid), Event.Answer(sid, description))];
    }

    /** `candidate`: relays the ICE candidate, tagged with the sender, to the
        named socket only. */
    method Candidate(sid: SocketId, targetSocketId: SocketId, candidate: Cand)
      modifies this
      ensures outbox == old(outbox) + [Emit(ToTargetExceptSender(targetSocketId, sid), Event.Candidate(sid, candidate))]
      ensures users == old(users) && messages == old(messages)
      ensures activeBroadcasters == old(activeBroadcasters)
      ensures old(Valid()) ==> Valid()
    {
      outbox := outbox + [Emit(ToTargetExceptSender(targetSocketId, sid), Event.Candidate(sid, candidate))];
    }

    /** `endBroadcast`: frees the socket's slot, keeping the other broadcasters
        in order, and tells everybody else, even when the socket held no slot. */
    method EndBroadcast(sid: SocketId)
      modifies this
      ensures activeBroadcasters == Without(old(activeBroadcasters), sid)
      ensures sid !in activeBroadcasters
      ensures outbox == old(outbox) + [Emit(ToOthers(sid), BroadcastEnded(sid))]
      ensures users == old(users) && messages == old(messages)
      ensures old(Valid()) ==> Valid()
    {
      WithoutMembers(activeBroadcasters, sid);
      if Valid() {
        WithoutKeepsValid(activeBroadcasters, sid);
      }
      activeBroadcasters := Without(activeBroadcasters, sid);
      outbox := outbox + [Emit(ToOthers(sid), BroadcastEnded(sid))];
    }

    /** `GET /clear-messages`: empties the chat log and nothing else.  The
        status 202 is set only after the body is sent, so the reply goes out
        with Express's default.  `reqFresh` is Express's `req.fresh`, the
        request's cache check against the body's ETag: when it holds, the
        reply is a 304 with an empty body, otherwise a 200 with the body. */
    method ClearMessages(reqFresh: bool) returns (reply: HttpReply)
      modifies this
      ensures messages == []
      ensures reply == if reqFresh then HttpReply(304, "") else HttpReply(200, "messages cleared")
      ensures users == old(users) && activeBroadcasters == old(activeBroadcasters)
      ensures outbox == old(outbox)
      ensures old(Valid()) ==> Valid()
    {
      messages := [];
      reply := if reqFresh then HttpReply(304, "") else HttpReply(200, "messages cleared");
    }
  }

  /** In every state the handlers reach, every offer, answer and candidate
      sent so far is delivered at most to its named target, never back to
      its sender, whoever is connected. */
  lemma SentSignalsReachOnlyTheirTargets<Ice, Desc, Cand>(st: ServerState<Ice, Desc, Cand>, connected: set<SocketId>)
    requires st.Valid()
    ensures forall i :: 0 <= i < |st.outbox| && st.outbox[i].event.IsSignal() ==>
              Receivers(st.outbox[i].to, connected) <= {st.outbox[i].to.target} - {st.outbox[i].event.from}
  {
  }

  /** Four distinct sockets get the four slots; a fifth is turned away. */
  method FifthRequestDenied<Ice, Desc, Cand>(ice: Ice, a: SocketId, b: SocketId, c: SocketId,
                                              d: SocketId, e: SocketId)
    returns (approvals: seq<bool>)
    requires |{a, b, c, d, e}| == 5
    ensures approvals == [true, true, true, true, false]
  {
    var st := new ServerState<Ice, Desc, Cand>(ice);
    var ra := st.RequestBroadcast(a);
    var rb := st.RequestBroadcast(b);
    var rc := st.RequestBroadcast(c);
    var rd := st.RequestBroadcast(d);
    var re := st.RequestBroadcast(e);
    approvals := [ra, rb, rc, rd, re];
  }

  /** A second request from a broadcasting socket is denied. */
  method RepeatRequestDenied<Ice, Desc, Cand>(ice: Ice, a: SocketId) returns (first: bool, second: bool)
    ensures first && !second
  {
    var st := new ServerState<Ice, Desc, Cand>(ice);
    first := st.RequestBroadcast(a);
    second := st.RequestBroadcast(a);
  }

  /** With no guard, initialising twice leaves two roster entries for one socket. */
  method InitializeTwice<Ice, Desc, Cand>(ice: Ice, a: SocketId, name: string) returns (roster: seq<User>)
    ensures roster == [User(a, name), User(a, name)]
  {
    var st := new ServerState<Ice, Desc, Cand>(ice);
    st.InitializeSession(a, name);
    st.InitializeSession(a, name);
    roster := st.users;
  }

  /** When the fourth broadcaster disconnects, a new socket gets its slot
      only if the broadcaster had initialised a session. */
  method DisconnectFreesSlot<Ice, Desc, Cand>(ice: Ice, a: SocketId, b: SocketId, c: SocketId,
                                               d: SocketId, e: SocketId, joined: bool)
    returns (approved: bool)
    requires |{a, b, c, d, e}| == 5
    ensures approved == joined
  {
    var st := new ServerState<Ice, Desc, Cand>(ice);
    var ra := st.RequestBroadcast(a);
    var rb := st.RequestBroadcast(b);
    var rc := st.RequestBroadcast(c);
    var rd := st.RequestBroadcast(d);
    if joined {
      st.InitializeSession(d, "d");
      assert st.users[0].socketId == d;
    }
    assert st.activeBroadcasters == [a, b, c, d];
    st.Disconnect(d);
    if joined {
      WithoutMembers([a, b, c, d], d);
      WithoutKeepsValid([a, b, c, d], d);
    }
    approved := st.RequestBroadcast(e);
  }

  /** Alice and Bob join, Alice says "hi", Bob takes a slot and leaves: both
      saw the message once, Bob's slot is free again, and the only trace of
      Bob leaving is a `userLogout` to the others (no `broadcastEnded`). */
  method AliceAndBob<Ice, Desc, Cand>(ice: Ice, a: SocketId, b: SocketId)
    returns (outbox: seq<Emit<Event<Ice, Desc, Cand>>>, broadcasters: seq<SocketId>, users: seq<User>)
    requires a != b
    ensures outbox == [Emit(ToSender(a), InitializedSession(User(a, "alice"))),
                       Emit(ToOthers(a), UserJoin(User(a, "alice"))),
                       Emit(ToSender(b), InitializedSession(User(b, "bob"))),
                       Emit(ToOthers(b), UserJoin(User(b, "bob"))),
                       Emit(ToAll, NewMessage(Message("alice", "hi"))),
                       Emit(ToSender(b), BroadcastRequestResponse(true)),
                       Emit(ToOthers(b), UserLogout(User(b, "bob")))]
    ensures broadcasters == [] && users == [User(a, "alice")]
  {
    var st := new ServerState<Ice, Desc, Cand>(ice);
    st.InitializeSession(a, "alice");
    st.InitializeSession(b, "bob");
    st.SendMessage(a, "hi");
    var ok := st.RequestBroadcast(b);
    assert st.users == [User(a, "alice"), User(b, "bob")];
    assert st.users[1].socketId == b;
    st.Disconnect(b);
    assert WithoutUser([User(b, "bob")], b) == [];
    assert WithoutUser([User(a, "alice"), User(b, "bob")], b) == [User(a, "alice")] + WithoutUser([User(b, "bob")], b);
    outbox, broadcasters, users := st.outbox, st.activeBroadcasters, st.users;
  }
}
