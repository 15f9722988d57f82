/** Entities shared by both server variants: socket ids, users, chat messages,
    and the symbolic audience an emitted event is addressed to. */
module Session {

  /** A socket.io connection id: server-assigned, one per transport connection. */
  type SocketId = string

  /** A roster entry, as pushed by the `initializeSession` handler. */
  datatype User = User(socketId: SocketId, username: string)

  /** A chat log entry: the sender's name captured at send time and the text. */
  datatype Message = Message(username: string, message: string)

  datatype Option<T> = None | Some(value: T)

  /** Who an emit is addressed to, one constructor per socket.io addressing form. */
  datatype Audience =
    | ToSender(sender: SocketId)                            // socket.emit
    | ToOthers(sender: SocketId)                            // socket.broadcast.emit
    | ToAll                                                 // io.emit
    | ToTarget(target: SocketId)                            // io.to(target).emit
    | ToTargetExceptSender(target: SocketId, sender: SocketId) // socket.to(target).emit

  /** The reply of the `/clear-messages` route: the status that goes out and
      the `response` field of the JSON body, or "" when no body is sent. */
  datatype HttpReply = HttpReply(status: nat, response: string)

  /** One entry of the outbox: an event and the audience it was sent to. */
  datatype Emit<E> = Emit(to: Audience, event: E)

  /** Whether a connection with id `c` is addressed by audience `a`.  A socket
      sits in the room named by its own id, and `socket.to` / `socket.broadcast`
      leave the emitting socket out. */
  predicate Reaches(a: Audience, c: SocketId)
  {
    match a
    case ToSender(s) => c == s
    case ToOthers(s) => c != s
    case ToAll => true
    case ToTarget(t) => c == t
    case ToTargetExceptSender(t, s) => c == t && c != s
  }

  /** The connected sockets an emit is delivered to.  The lemmas below give
      its closed form for each audience. */
  function Receivers(a: Audience, connected: set<SocketId>): set<SocketId>
  {
    set c | c in connected && Reaches(a, c)
  }

  /** A `socket.to(target)` emit reaches the target when it is connected and is
      not the sender itself, and no other socket at all. */
  lemma TargetedDelivery(target: SocketId, sender: SocketId, connected: set<SocketId>)
    ensures Receivers(ToTargetExceptSender(target, sender), connected)
         == if target in connected && target != sender then {target} else {}
  {
  }

  /** An `io.to(target)` emit reaches exactly the target when it is connected,
      the sender included if it names itself. */
  lemma RoomDelivery(target: SocketId, connected: set<SocketId>)
    ensures Receivers(ToTarget(target), connected)
         == if target in connected then {target} else {}
  {
  }

  /** `socket.broadcast.emit` reaches every connected socket but the sender;
      `io.emit` reaches every connected socket, the sender included. */
  lemma FanOutDelivery(sender: SocketId, connected: set<SocketId>)
    ensures Receivers(ToOthers(sender), connected) == connected - {sender}
    ensures Receivers(ToAll, connected) == connected
    ensures Receivers(ToSender(sender), connected) == connected * {sender}
  {
  }
}
