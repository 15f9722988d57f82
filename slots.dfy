/** The broadcaster list (`activeBroadcasters` in app.ts, `broadcasts` in
    app.js): the ids of the sockets holding one of the four broadcast slots. */
module Slots {
  import opened Session

  /** The number of sockets that may broadcast at once. */
  const Capacity: nat := 4

  predicate NoDup(ids: seq<SocketId>)
  {
    forall i, j :: 0 <= i < j < |ids| ==> ids[i] != ids[j]
  }

  /** The list invariant the slot manager is meant to keep. */
  predicate SlotsValid(ids: seq<SocketId>)
  {
    |ids| <= Capacity && NoDup(ids)
  }

  /** `ids.filter(id => id !== sid)`. */
  function Without(ids: seq<SocketId>, sid: SocketId): seq<SocketId>
  {
    if |ids| == 0 then []
    else if ids[0] == sid then Without(ids[1..], sid)
    else [ids[0]] + Without(ids[1..], sid)
  }

  /** app.ts's rule: a request is granted unless the list already holds four
      ids or already holds the requester. */
  predicate TsGrants(ids: seq<SocketId>, sid: SocketId)
  {
    !(|ids| >= Capacity) && sid !in ids
  }

  /** JavaScript truthiness of `ids.find(b => b === sid)`: the element found,
      which is falsy when it is the empty string. */
  predicate JsFindTruthy(ids: seq<SocketId>, sid: SocketId)
  {
    sid in ids && sid != ""
  }

  /** app.js's rule: a request is denied when the list length is exactly four
      or the `find` above is truthy. */
  predicate JsGrants(ids: seq<SocketId>, sid: SocketId)
  {
    !(|ids| == Capacity || JsFindTruthy(ids, sid))
  }

  /** The filter removes every copy of `sid` and keeps everything else. */
  lemma {:induction false} WithoutMembers(ids: seq<SocketId>, sid: SocketId)
    ensures forall x :: x in Without(ids, sid) <==> x in ids && x != sid
    ensures |Without(ids, sid)| <= |ids|
  {
    if |ids| > 0 {
      WithoutMembers(ids[1..], sid);
      assert ids == [ids[0]] + ids[1..];
    }
  }

  /** Filtering distributes over concatenation, so the survivors keep their order. */
  lemma {:induction false} WithoutConcat(a: seq<SocketId>, b: seq<SocketId>, sid: SocketId)
    ensures Without(a + b, sid) == Without(a, sid) + Without(b, sid)
  {
    if |a| > 0 {
      WithoutConcat(a[1..], b, sid);
      assert (a + b)[1..] == a[1..] + b;
    } else {
      assert a + b == b;
    }
  }

  /** Removing an id that is not in the list changes nothing. */
  lemma {:induction false} WithoutAbsent(ids: seq<SocketId>, sid: SocketId)
    requires sid !in ids
    ensures Without(ids, sid) == ids
  {
    if |ids| > 0 {
      WithoutAbsent(ids[1..], sid);
      assert ids == [ids[0]] + ids[1..];
    }
  }

  /** Releasing a slot keeps the invariant, and frees exactly one slot when the
      id held one. */
  lemma {:induction false} WithoutKeepsValid(ids: seq<SocketId>, sid: SocketId)
    requires NoDup(ids)
    ensures NoDup(Without(ids, sid))
    ensures |Without(ids, sid)| == if sid in ids then |ids| - 1 else |ids|
  {
    if |ids| > 0 {
      var tail := ids[1..];
      assert NoDup(tail) by {
        forall i, j | 0 <= i < j < |tail| ensures tail[i] != tail[j] {
          assert tail[i] == ids[i + 1] && tail[j] == ids[j + 1];
        }
      }
      WithoutKeepsValid(tail, sid);
      WithoutMembers(tail, sid);
      assert ids[0] !in tail by {
        forall k | 0 <= k < |tail| ensures tail[k] != ids[0] {
          assert tail[k] == ids[k + 1];
        }
      }
      assert ids == [ids[0]] + tail;
      if ids[0] == sid {
        WithoutAbsent(tail, sid);
      } else {
        var r := Without(tail, sid);
        assert ids[0] !in r;
        assert NoDup([ids[0]] + r) by {
          forall i, j | 0 <= i < j < |[ids[0]] + r| ensures ([ids[0]] + r)[i] != ([ids[0]] + r)[j] {
            if i == 0 {
              assert ([ids[0]] + r)[j] == r[j - 1];
              assert r[j - 1] in r;
            } else {
              assert ([ids[0]] + r)[i] == r[i - 1] && ([ids[0]] + r)[j] == r[j - 1];
            }
          }
        }
      }
    }
  }

  /** A granted request appends an id that keeps the list within capacity and
      free of duplicates. */
  lemma GrantKeepsValid(ids: seq<SocketId>, sid: SocketId)
    requires SlotsValid(ids) && TsGrants(ids, sid)
    ensures SlotsValid(ids + [sid])
  {
  }

  /** On a list that keeps the invariant, the app.js rule (`length === 4`,
      truthy `find`) grants exactly when the app.ts rule does, for every
      non-empty socket id. */
  lemma JsGrantsAgreesWithTs(ids: seq<SocketId>, sid: SocketId)
    requires SlotsValid(ids) && sid != ""
    ensures JsGrants(ids, sid) <==> TsGrants(ids, sid)
  {
  }

  /** app.js's `=== 4` test keeps the cap for every id, because a list that
      holds at most four ids reaches four before it could pass it; no
      duplicate is added unless the id is the empty one. */
  lemma JsGrantKeepsSlots(ids: seq<SocketId>, sid: SocketId)
    requires |ids| <= Capacity && JsGrants(ids, sid)
    ensures |ids + [sid]| <= Capacity
    ensures NoDup(ids) && sid != "" ==> NoDup(ids + [sid])
  {
  }

  /** The empty id is falsy in JavaScript, so app.js grants it a second slot. */
  lemma JsGrantsEmptyIdTwice()
    ensures JsGrants([""], "") && !TsGrants([""], "")
    ensures !NoDup([""] + [""])
  {
    assert ([""] + [""])[0] == ([""] + [""])[1];
  }
}
