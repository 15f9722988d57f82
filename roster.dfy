/** The `users` list and the two list operations the handlers run on it:
    `users.find(u => u.socketId === id)` and
    `users.filter(u => u.socketId !== id)`. */
module Roster {
  import opened Session

  /** Some entry of the roster belongs to socket `sid`. */
  predicate HasUser(users: seq<User>, sid: SocketId)
  {
    exists i :: 0 <= i < |users| && users[i].socketId == sid
  }

  /** `users.find(...)`: the FIRST entry whose socketId is `sid`, if any. */
  function FindUser(users: seq<User>, sid: SocketId): (r: Option<User>)
    ensures r.None? <==> !HasUser(users, sid)
    ensures r.Some? ==> r.value.socketId == sid
    ensures r.Some? ==> exists i :: 0 <= i < |users| && users[i] == r.value
                                    && forall j :: 0 <= j < i ==> users[j].socketId != sid
  {
    if |users| == 0 then None
    else if users[0].socketId == sid then Some(users[0])
    else
      var r := FindUser(users[1..], sid);
      assert HasUser(users[1..], sid) ==> HasUser(users, sid);
      assert HasUser(users, sid) ==> HasUser(users[1..], sid) by {
        if HasUser(users, sid) {
          var i :| 0 <= i < |users| && users[i].socketId == sid;
          assert users[1..][i - 1].socketId == sid;
        }
      }
      if r.Some? then
        var i :| 0 <= i < |users[1..]| && users[1..][i] == r.value
                 && forall j :: 0 <= j < i ==> users[1..][j].socketId != sid;
        assert users[i + 1] == r.value;
        assert forall j :: 0 <= j < i + 1 ==> users[j].socketId != sid by {
          forall j | 0 <= j < i + 1 ensures users[j].socketId != sid {
            if j > 0 { assert users[j] == users[1..][j - 1]; }
          }
        }
        r
      else r
  }

  /** `users.filter(u => u.socketId !== sid)`. */
  function WithoutUser(users: seq<User>, sid: SocketId): seq<User>
  {
    if |users| == 0 then []
    else if users[0].socketId == sid then WithoutUser(users[1..], sid)
    else [users[0]] + WithoutUser(users[1..], sid)
  }

  /** The entries `filter` drops: those whose socketId is `sid`, in roster order. */
  function UsersOf(users: seq<User>, sid: SocketId): seq<User>
  {
    if |users| == 0 then []
    else if users[0].socketId == sid then [users[0]] + UsersOf(users[1..], sid)
    else UsersOf(users[1..], sid)
  }

  /** The filter keeps exactly the entries of other sockets. */
  lemma {:induction false} WithoutUserMembers(users: seq<User>, sid: SocketId)
    ensures forall u :: u in WithoutUser(users, sid) <==> u in users && u.socketId != sid
    ensures !HasUser(WithoutUser(users, sid), sid)
  {
    if |users| > 0 {
      WithoutUserMembers(users[1..], sid);
      assert users == [users[0]] + users[1..];
    }
  }

  /** The dropped entries are exactly the entries of socket `sid`. */
  lemma {:induction false} UsersOfMembers(users: seq<User>, sid: SocketId)
    ensures forall u :: u in UsersOf(users, sid) <==> u in users && u.socketId == sid
    ensures |UsersOf(users, sid)| + |WithoutUser(users, sid)| == |users|
  {
    if |users| > 0 {
      UsersOfMembers(users[1..], sid);
      assert users == [users[0]] + users[1..];
    }
  }

  /** Filtering works entry by entry: it distributes over concatenation.  With
      the one-entry cases this fixes the result completely, so the kept entries
      stay in their original order. */
  lemma {:induction false} WithoutUserConcat(a: seq<User>, b: seq<User>, sid: SocketId)
    ensures WithoutUser(a + b, sid) == WithoutUser(a, sid) + WithoutUser(b, sid)
    ensures UsersOf(a + b, sid) == UsersOf(a, sid) + UsersOf(b, sid)
  {
    if |a| > 0 {
      WithoutUserConcat(a[1..], b, sid);
      assert (a + b)[1..] == a[1..] + b;
    } else {
      assert a + b == b;
    }
  }

  /** One step of the filter's pass over the roster. */
  lemma FilterStep(users: seq<User>, i: nat, sid: SocketId)
    requires i < |users|
    ensures WithoutUser(users[..i + 1], sid)
         == WithoutUser(users[..i], sid) + (if users[i].socketId == sid then [] else [users[i]])
    ensures UsersOf(users[..i + 1], sid)
         == UsersOf(users[..i], sid) + (if users[i].socketId == sid then [users[i]] else [])
  {
    assert users[..i + 1] == users[..i] + [users[i]];
    WithoutUserConcat(users[..i], [users[i]], sid);
    assert [users[i]][1..] == [];
  }

  /** A roster with no entry for `sid` is left as it is. */
  lemma {:induction false} WithoutAbsentUser(users: seq<User>, sid: SocketId)
    requires !HasUser(users, sid)
    ensures WithoutUser(users, sid) == users
    ensures UsersOf(users, sid) == []
  {
    if |users| > 0 {
      WithoutAbsentUser(users[1..], sid);
      assert users[0].socketId != sid;
      assert users == [users[0]] + users[1..];
    }
  }
}
