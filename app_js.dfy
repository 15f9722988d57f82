/** app.js: the older server.  Its session state is `users`, `messages` and
    `broadcasts`.  Two of its handlers throw: `sentMessage` from a socket with
    no roster entry reads `username` of `undefined`, and `disconnect` always
    ends by reading an undeclared `user`.  A throw is modelled as a `Crashed`
    outcome; whatever the handler changed or emitted before it stays.
    `Ice`, `Desc` and `Cand` are as in app.ts; `Flag` is the extra `sender`
    argument of `candidate`; `Signal` and `Caller` are the `data` and `from`
    fields of a `callUser` request. */
module AppJs {
  import opened Session
  import opened Roster
  import opened Slots

  /** The server-to-client events app.js emits. */
  datatype Event<Ice, Desc, Cand, Flag, Signal, Caller> =
    | Connected(iceServers: Ice, users: seq<User>)
    | IceServers(iceServers: Ice)
    | LoggedInUsers(users: seq<User>)
    | IncomingCall(signal: Signal, from: Caller)
    | InitializedSession(user: User, messages: seq<Message>)
    | NewUserJoin(user: User)
    | UserLogout(user: User)
    | NewMessage(message: Message)
    | BroadcastRequestResponse(approved: bool)
    | Offer(sender: SocketId, description: Desc)
    | Answer(sender: SocketId, description: Desc)
    | Candidate(sender: SocketId, flag: Flag, candidate: Cand)
    | BroadcastEnded(socketId: SocketId)
  {
    /** The WebRTC relays, forwarded with `socket.to`. */
    predicate IsSignal()
    {
      Offer? || Answer? || Candidate?
    }
  }

  /** The argument of a `callUser` event. */
  datatype Call<Signal, Caller> = Call(socketId: SocketId, data: Signal, from: Caller)

  /** The exceptions a handler can throw. */
  datatype JsError = ReferenceError | TypeError

  /** How a handler ended: it ran to its end, or it threw. */
  datatype Outcome = Completed | Crashed(error: JsError)

  type JsEmit<Ice, Desc, Cand, Flag, Signal, Caller> = Emit<Event<Ice, Desc, Cand, Flag, Signal, Caller>>

  /** Relayed payloads go to one named socket: WebRTC relays with `socket.to`
      from the socket they name as sender, calls with `io.to`. */
  predicate Unicast<Ice, Desc, Cand, Flag, Signal, Caller>(e: JsEmit<Ice, Desc, Cand, Flag, Signal, Caller>)
  {
    && (e.event.IsSignal() ==> e.to.ToTargetExceptSender? && e.to.sender == e.event.sender)
    && (e.event.IncomingCall? ==> e.to.ToTarget?)
  }

  /** A WebRTC relay kept by the invariant reaches its named target, if that
      socket is connected and is not the sender, and nobody else. */
  lemma SignalReachesOnlyItsTarget<Ice, Desc, Cand, Flag, Signal, Caller>(
    e: JsEmit<Ice, Desc, Cand, Flag, Signal, Caller>, connected: set<SocketId>)
    requires Unicast(e) && e.event.IsSignal()
    ensures Receivers(e.to, connected)
         == if e.to.target in connected && e.to.target != e.event.sender then {e.to.target} else {}
  {
  }

  /** An incoming call kept by the invariant reaches its named target, if
      that socket is connected, and nobody else. */
  lemma CallReachesOnlyItsTarget<Ice, Desc, Cand, Flag, Signal, Caller>(
    e: JsEmit<Ice, Desc, Cand, Flag, Signal, Caller>, connected: set<SocketId>)
    requires Unicast(e) && e.event.IncomingCall?
    ensures Receivers(e.to, connected) == if e.to.target in connected then {e.to.target} else {}
  {
  }

  /** The `userLogout` emits of `disconnect`, one per removed roster entry. */
  function Logouts<Ice, Desc, Cand, Flag, Signal, Caller>(removed: seq<User>, sid: SocketId)
    : seq<JsEmit<Ice, Desc, Cand, Flag, Signal, Caller>>
  {
    if |removed| == 0 then []
    else [Emit(ToOthers(sid), UserLogout(removed[0]))] + Logouts(removed[1..], sid)
  }

  /** One `userLogout` to the other sockets per removed entry, in roster order. */
  lemma {:induction false} LogoutsEach<Ice, Desc, Cand, Flag, Signal, Caller>(removed: seq<User>, sid: SocketId)
    ensures |Logouts<Ice, Desc, Cand, Flag, Signal, Caller>(removed, sid)| == |removed|
    ensures forall k :: 0 <= k < |removed| ==>
              Logouts<Ice, Desc, Cand, Flag, Signal, Caller>(removed, sid)[k] == Emit(ToOthers(sid), UserLogout(removed[k]))
  {
    if |removed| > 0 {
      LogoutsEach<Ice, Desc, Cand, Flag, Signal, Caller>(removed[1..], sid);
    }
  }

  lemma {:induction false} LogoutsConcat<Ice, Desc, Cand, Flag, Signal, Caller>(a: seq<User>, b: seq<User>, sid: SocketId)
    ensures Logouts<Ice, Desc, Cand, Flag, Signal, Caller>(a + b, sid)
         == Logouts<Ice, Desc, Cand, Flag, Signal, Caller>(a, sid) + Logouts(b, sid)
  {
    if |a| > 0 {
      LogoutsConcat<Ice, Desc, Cand, Flag, Signal, Caller>(a[1..], b, sid);
      assert (a + b)[1..] == a[1..] + b;
    } else {
      assert a + b == b;
    }
  }

  class ServerState<Ice, Desc, Cand, Flag, Signal, Caller> {
    const iceServers: Ice
    var users: seq<User>
    var messages: seq<Message>
    var broadcasts: seq<SocketId>
    /** Every event emitted so far, in emission order. */
    var outbox: seq<JsEmit<Ice, Desc, Cand, Flag, Signal, Caller>>

    /** At most four broadcasters, and relayed payloads unicast: every
        handler keeps this, for every socket id. */
    ghost predicate Valid()
      reads this
    {
      |broadcasts| <= Capacity
      && forall i :: 0 <= i < |outbox| ==> Unicast(outbox[i])
    }

    /** No socket holds two slots: every handler keeps this, except that a
        request from the empty id can break it. */
    ghost predicate Distinct()
      reads this
    {
      NoDup(broadcasts)
    }

    /** The state right after `tokens.create()` resolves. */
    constructor (iceServers: Ice)
      ensures this.iceServers == iceServers
      ensures users == [] && messages == [] && broadcasts == [] && outbox == []
      ensures Valid() && Distinct()
    {
      this.iceServers := iceServers;
      users, messages, broadcasts, outbox := [], [], [], [];
    }

    /** On `connection`: the new socket receives `connected` (relay servers and
        roster), then `iceServers`, then `loggedInUsers`. */
    method Connect(sid: SocketId)
      modifies this
      ensures outbox == old(outbox) + [Emit(ToSender(sid), Connected(iceServers, users)),
                                       Emit(ToSender(sid), IceServers(iceServers)),
                                       Emit(ToSender(sid), LoggedInUsers(users))]
      ensures users == old(users) && messages == old(messages) && broadcasts == old(broadcasts)
      ensures old(Valid()) ==> Valid()
      ensures old(Distinct()) ==> Distinct()
    {
      outbox := outbox + [Emit(ToSender(sid), Connected(iceServers, users))];
      outbox := outbox + [Emit(ToSender(sid), IceServers(iceServers))];
      outbox := outbox + [Emit(ToSender(sid), LoggedInUsers(users))];
    }

    /** `callUser`: sends the call's signal and caller to the named socket
        only, with `io.to`, so a socket calling itself receives it too.  A
        missing (`undefined` or `null`) argument throws a TypeError at
        `call.socketId` before anything is sent. */
    method CallUser(call: Option<Call<Signal, Caller>>) returns (outcome: Outcome)
      modifies this
      ensures outcome == if call.Some? then Completed else Crashed(TypeError)
      ensures outbox == if call.None? then old(outbox)
                        else old(outbox) + [Emit(ToTarget(call.value.socketId), IncomingCall(call.value.data, call.value.from))]
      ensures users == old(users) && messages == old(messages) && broadcasts == old(broadcasts)
      ensures old(Valid()) ==> Valid()
      ensures old(Distinct()) ==> Distinct()
    {
      if call.None? {
        return Crashed(TypeError);
      }
      outbox := outbox + [Emit(ToTarget(call.value.socketId), IncomingCall(call.value.data, call.value.from))];
      outcome := Completed;
    }

    /** `initializeSession`: acknowledges the sender with its entry and the
        chat log as it stands, appends the entry, and announces it to the
        others.  No guard against a second call. */
    method InitializeSession(sid: SocketId, username: string)
      modifies this
      ensures users == old(users) + [User(sid, username)]
      ensures outbox == old(outbox) + [Emit(ToSender(sid), InitializedSession(User(sid, username), old(messages))),
                                       Emit(ToOthers(sid), NewUserJoin(User(sid, username)))]
      ensures messages == old(messages) && broadcasts == old(broadcasts)
      ensures old(Valid()) ==> Valid()
      ensures old(Distinct()) ==> Distinct()
    {
      var user := User(sid, username);
      outbox := outbox + [Emit(ToSender(sid), InitializedSession(user, messages))];
      users := users + [user];
      outbox := outbox + [Emit(ToOthers(sid), NewUserJoin(user))];
    }

    /** `disconnect`: the roster filter announces each of the socket's entries
        to the others as it drops it; then the socket's slot is freed, whether
        or not it had an entry; then the log line throws a ReferenceError. */
    method Disconnect(sid: SocketId) returns (outcome: Outcome)
      modifies this
      ensures users == WithoutUser(old(users), sid)
      ensures outbox == old(outbox) + Logouts(UsersOf(old(users), sid), sid)
      ensures broadcasts == Without(old(broadcasts), sid)
      ensures !HasUser(users, sid) && sid !in broadcasts
      ensures messages == old(messages)
      ensures outcome == Crashed(ReferenceError)
      ensures old(Valid()) ==> Valid()
      ensures old(Distinct()) ==> Distinct()
    {
      var kept: seq<User> := [];
      var i := 0;
      while i < |users|
        invariant 0 <= i <= |users|
        invariant users == old(users) && broadcasts == old(broadcasts) && messages == old(messages)
        invariant kept == WithoutUser(users[..i], sid)
        invariant outbox == old(outbox) + Logouts(UsersOf(users[..i], sid), sid)
      {
        var user := users[i];
        FilterStep(users, i, sid);
        if user.socketId == sid {
          LogoutsConcat<Ice, Desc, Cand, Flag, Signal, Caller>(UsersOf(users[..i], sid), [user], sid);
          assert [user][1..] == [];
          assert Logouts<Ice, Desc, Cand, Flag, Signal, Caller>([user], sid) == [Emit(ToOthers(sid), UserLogout(user))];
          outbox := outbox + [Emit(ToOthers(sid), UserLogout(user))];
          assert UsersOf(users[..i + 1], sid) == UsersOf(users[..i], sid) + [user];
        } else {
          kept := kept + [user];
          assert UsersOf(users[..i + 1], sid) == UsersOf(users[..i], sid);
        }
        i := i + 1;
      }
      assert users[..i] == users;
      WithoutUserMembers(users, sid);
      WithoutMembers(broadcasts, sid);
      if old(Distinct()) {
        WithoutKeepsValid(broadcasts, sid);
      }
      if old(Valid()) {
        LogoutsEach<Ice, Desc, Cand, Flag, Signal, Caller>(UsersOf(users, sid), sid);
      }
      users := kept;
      broadcasts := Without(broadcasts, sid);
      outcome := Crashed(ReferenceError);
    }

    /** `sentMessage`: from a socket with a roster entry, appends the message
        under the first entry's name and sends it to everybody; from any other
        socket, throws a TypeError before changing anything. */
    method SentMessage(sid: SocketId, text: string) returns (outcome: Outcome)
      modifies this
      ensures outcome == if HasUser(old(users), sid) then Completed else Crashed(TypeError)
      ensures outcome.Completed? ==>
                var m := Message(FindUser(old(users), sid).value.username, text);
                messages == old(messages) + [m] && outbox == old(outbox) + [Emit(ToAll, NewMessage(m))]
      ensures outcome.Crashed? ==> messages == old(messages) && outbox == old(outbox)
      ensures users == old(users) && broadcasts == old(broadcasts)
      ensures old(Valid()) ==> Valid()
      ensures old(Distinct()) ==> Distinct()
    {
      var user := FindUser(users, sid);
      if user.None? {
        return Crashed(TypeError);
      }
      var message := Message(user.value.username, text);
      messages := messages + [message];
      outbox := outbox + [Emit(ToAll, NewMessage(message))];
      outcome := Completed;
    }

    /** `requestBroadcast`: denied when the list length is exactly four or the
        `find` for the requester is truthy, granted (and the id appended)
        otherwise; the answer goes to the requester only.  The invariant is
        kept for every non-empty id. */
    method RequestBroadcast(sid: SocketId) returns (approved: bool)
      modifies this
      ensures approved == JsGrants(old(broadcasts), sid)
      ensures broadcasts == if approved then old(broadcasts) + [sid] else old(broadcasts)
      ensures outbox == old(outbox) + [Emit(ToSender(sid), BroadcastRequestResponse(approved))]
      ensures users == old(users) && messages == old(messages)
      ensures old(Valid()) ==> Valid()
      ensures old(Distinct()) && sid != "" ==> Distinct()
    {
      if |broadcasts| == Capacity || JsFindTruthy(broadcasts, sid) {
        outbox := outbox + [Emit(ToSender(sid), BroadcastRequestResponse(false))];
        approved := false;
      } else {
        if Valid() {
          JsGrantKeepsSlots(broadcasts, sid);
        }
        broadcasts := broadcasts + [sid];
        outbox := outbox + [Emit(ToSender(sid), BroadcastRequestResponse(true))];
        approved := true;
      }
    }

    /** `offer`: relays the description, tagged with the sender, to the named
        watcher only. */
    method Offer(sid: SocketId, watcherSocketId: SocketId, description: Desc)
      modifies this
      ensures outbox == old(outbox) + [Emit(ToTargetExceptSender(watcherSocketId, sid), Event.Offer(sid, description))]
      ensures users == old(users) && messages == old(messages) && broadcasts == old(broadcasts)
      ensures old(Valid()) ==> Valid()
      ensures old(Distinct()) ==> Distinct()
    {
      outbox := outbox + [Emit(ToTargetExceptSender(watcherSocketId, sid), Event.Offer(sid, description))];
    }

    /** `answer`: relays the description, tagged with the sender, to the named
        broadcaster only. */
    method Answer(sid: SocketId, broadcasterSocketId: SocketId, description: Desc)
      modifies this
      ensures outbox == old(outbox) + [Emit(ToTargetExceptSender(broadcasterSocketId, sid), Event.Answer(sid, description))]
      ensures users == old(users) && messages == old(messages) && broadcasts == old(broadcasts)
      ensures old(Valid()) ==> Valid()
      ensures old(Distinct()) ==> Distinct()
    {
      outbox := outbox + [Emit(ToTargetExceptSender(broadcasterSocketId, sid), Event.Answer(sid, description))];
    }

    /** `candidate`: relays the flag and the ICE candidate, tagged with the
        sender, to the named socket only. */
    method Candidate(sid: SocketId, id: SocketId, flag: Flag, candidate: Cand)
      modifies this
      ensures outbox == old(outbox) + [Emit(ToTargetExceptSender(id, sid), Event.Candidate(sid, flag, candidate))]
      ensures users == old(users) && messages == old(messages) && broadcasts == old(broadcasts)
      ensures old(Valid()) ==> Valid()
      ensures old(Distinct()) ==> Distinct()
    {
      outbox := outbox + [Emit(ToTargetExceptSender(id, sid), Event.Candidate(sid, flag, candidate))];
    }

    /** `endBroadcast`: frees the socket's slot, keeping the other broadcasters
        in order, and tells everybody else, even when it held no slot. */
    method EndBroadcast(sid: SocketId)
      modifies this
      ensures broadcasts == Without(old(broadcasts), sid)
      ensures sid !in broadcasts
      ensures outbox == old(outbox) + [Emit(ToOthers(sid), BroadcastEnded(sid))]
      ensures users == old(users) && messages == old(messages)
      ensures old(Valid()) ==> Valid()
      ensures old(Distinct()) ==> Distinct()
    {
      WithoutMembers(broadcasts, sid);
      if Distinct() {
        WithoutKeepsValid(broadcasts, sid);
      }
      broadcasts := Without(broadcasts, sid);
      outbox := outbox + [Emit(ToOthers(sid), BroadcastEnded(sid))];
    }

    /** `GET /clear-messages`: empties the chat log and nothing else.  The
        status 202 is set only after the body is sent, so the reply goes out
        with Express's default.  `reqFresh` is Express's `req.fresh`, the
        request's cache check against the body's ETag: when it holds, the
        reply is a 304 with an empty body, otherwise a 200 with the body. */
    method ClearMessages(reqFresh: bool) returns (reply: HttpReply)
      modifies this
      ensures messages == []
      ensures reply == if reqFresh then HttpReply(304, "") else HttpReply(200, "messages cleared")
      ensures users == old(users) && broadcasts == old(broadcasts) && outbox == old(outbox)
      ensures old(Valid()) ==> Valid()
      ensures old(Distinct()) ==> Distinct()
    {
      messages := [];
      reply := if reqFresh then HttpReply(304, "") else HttpReply(200, "messages cleared");
    }
  }

  /** In every state the handlers reach, every offer, answer and candidate
      sent so far is delivered at most to its named target, never back to its
      sender, and every incoming call at most to its named target. */
  lemma SentSignalsReachOnlyTheirTargets<Ice, Desc, Cand, Flag, Signal, Caller>(
    st: ServerState<Ice, Desc, Cand, Flag, Signal, Caller>, connected: set<SocketId>)
    requires st.Valid()
    ensures forall i :: 0 <= i < |st.outbox| && st.outbox[i].event.IsSignal() ==>
              Receivers(st.outbox[i].to, connected) <= {st.outbox[i].to.target} - {st.outbox[i].event.sender}
    ensures forall i :: 0 <= i < |st.outbox| && st.outbox[i].event.IncomingCall? ==>
              Receivers(st.outbox[i].to, connected) <= {st.outbox[i].to.target}
  {
  }

  /** Four distinct sockets get the four slots; a fifth is turned away. */
  method FifthRequestDenied<Ice, Desc, Cand, Flag, Signal, Caller>(
    ice: Ice, a: SocketId, b: SocketId, c: SocketId, d: SocketId, e: SocketId)
    returns (approvals: seq<bool>)
    requires |{a, b, c, d, e}| == 5
    ensures approvals == [true, true, true, true, false]
  {
    var st := new ServerState<Ice, Desc, Cand, Flag, Signal, Caller>(ice);
    var ra := st.RequestBroadcast(a);
    assert st.broadcasts == [a];
    var rb := st.RequestBroadcast(b);
    assert st.broadcasts == [a, b];
    var rc := st.RequestBroadcast(c);
    assert st.broadcasts == [a, b, c];
    var rd := st.RequestBroadcast(d);
    assert |st.broadcasts| == Capacity;
    var re := st.RequestBroadcast(e);
    approvals := [ra, rb, rc, rd, re];
  }

  /** The empty id is falsy, so it is granted a slot twice over. */
  method EmptyIdGrantedTwice<Ice, Desc, Cand, Flag, Signal, Caller>(ice: Ice)
    returns (first: bool, second: bool, broadcasters: seq<SocketId>)
    ensures first && second && broadcasters == ["", ""]
  {
    var st := new ServerState<Ice, Desc, Cand, Flag, Signal, Caller>(ice);
    first := st.RequestBroadcast("");
    second := st.RequestBroadcast("");
    broadcasters := st.broadcasts;
  }

  /** A message from a socket that never initialised a session throws and
      leaves the chat log and the outbox as they were. */
  method UnknownSenderCrashes<Ice, Desc, Cand, Flag, Signal, Caller>(ice: Ice, a: SocketId, text: string)
    returns (outcome: Outcome, log: seq<Message>, sent: nat)
    ensures outcome == Crashed(TypeError) && log == [] && sent == 0
  {
    var st := new ServerState<Ice, Desc, Cand, Flag, Signal, Caller>(ice);
    outcome := st.SentMessage(a, text);
    log, sent := st.messages, |st.outbox|;
  }

  /** A socket that initialised twice and took a slot disconnects: both
      entries go, each announced once to the others, its slot is freed, and
      the handler still throws at its end. */
  method DisconnectCleansThenCrashes<Ice, Desc, Cand, Flag, Signal, Caller>(ice: Ice, a: SocketId, b: SocketId)
    returns (outcome: Outcome, emitted: seq<JsEmit<Ice, Desc, Cand, Flag, Signal, Caller>>,
             users: seq<User>, broadcasters: seq<SocketId>)
    requires a != b
    ensures outcome == Crashed(ReferenceError)
    ensures emitted == [Emit(ToOthers(a), UserLogout(User(a, "ann"))), Emit(ToOthers(a), UserLogout(User(a, "ann")))]
    ensures users == [User(b, "bo")] && broadcasters == []
  {
    var st := new ServerState<Ice, Desc, Cand, Flag, Signal, Caller>(ice);
    st.InitializeSession(a, "ann");
    st.InitializeSession(b, "bo");
    st.InitializeSession(a, "ann");
    var ok := st.RequestBroadcast(a);
    var ua, ub := User(a, "ann"), User(b, "bo");
    assert st.users == [ua, ub, ua];
    assert [ua][1..] == [] && [ub, ua][1..] == [ua] && [ua, ub, ua][1..] == [ub, ua];
    assert WithoutUser([ua], a) == WithoutUser([], a) == [];
    assert UsersOf([ua], a) == [ua] + UsersOf([], a) == [ua];
    assert UsersOf([ub, ua], a) == [ua] && WithoutUser([ub, ua], a) == [ub];
    assert UsersOf([ua, ub, ua], a) == [ua, ua] && WithoutUser([ua, ub, ua], a) == [ub];
    var n := |st.outbox|;
    ghost var before := st.outbox;
    outcome := st.Disconnect(a);
    assert st.outbox == before + Logouts([ua, ua], a);
    LogoutsEach<Ice, Desc, Cand, Flag, Signal, Caller>([ua, ua], a);
    emitted, users, broadcasters := st.outbox[n..], st.users, st.broadcasts;
  }

  /** Unlike app.ts, app.js frees the slot of a socket that never initialised
      a session (and then throws all the same). */
  method UninitialisedDisconnectFreesSlot<Ice, Desc, Cand, Flag, Signal, Caller>(ice: Ice, a: SocketId)
    returns (outcome: Outcome, broadcasters: seq<SocketId>, sent: seq<JsEmit<Ice, Desc, Cand, Flag, Signal, Caller>>)
    ensures outcome == Crashed(ReferenceError) && broadcasters == []
    ensures sent == [Emit(ToSender(a), BroadcastRequestResponse(true))]
  {
    var st := new ServerState<Ice, Desc, Cand, Flag, Signal, Caller>(ice);
    var ok := st.RequestBroadcast(a);
    outcome := st.Disconnect(a);
    broadcasters, sent := st.broadcasts, st.outbox;
  }
}
