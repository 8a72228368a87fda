// The socket service and the notifier that sends requests through it: the maps they keep and
// the handlers that change them, each one step of the pending-request protocol.
module SocketService {
  import opened PendingRequests

  class SocketService {
    var pendingRequests: map<Id, User>
    var connections: map<User, seq<Socket>>
    // Timers that are running, and what has happened so far.
    var timers: set<Id>
    ghost var resolutions: seq<Resolution>
    ghost var sent: set<Id>
    ghost var dropped: set<Id>

    ghost function View(): State
      reads this
    {
      State(pendingRequests, timers, connections, resolutions, sent, dropped)
    }

    ghost predicate Valid()
      reads this
    {
      Inv(View())
    }

    constructor ()
      ensures Valid() && View() == Empty()
    {
      pendingRequests, connections, timers := map[], map[], {};
      resolutions, sent, dropped := [], {}, {};
    }

    predicate IsUserOnline(user: User)
      reads this
    {
      user in connections && |connections[user]| > 0
    }

    method OnConnection(user: User, socket: Socket)
      requires Valid()
      modifies this
      ensures Valid() && View() == Step(old(View()), Connect(user, socket))
      ensures connections == old(connections)[user := (if user in old(connections) then old(connections)[user] else []) + [socket]]
    {
      StepKeeps(View(), Connect(user, socket));
      if user !in connections {
        connections := connections[user := []];
      }
      connections := connections[user := connections[user] + [socket]];
    }

    // findIndex and splice on the user's devices.
    static method Splice(sockets: seq<Socket>, socket: Socket) returns (left: seq<Socket>)
      ensures left == RemoveSocket(sockets, socket)
    {
      var index := 0;
      while index < |sockets| && sockets[index] != socket
        invariant index <= |sockets|
        invariant RemoveSocket(sockets, socket) == sockets[..index] + RemoveSocket(sockets[index..], socket)
      {
        assert sockets[index..][1..] == sockets[index + 1..];
        assert sockets[..index] + [sockets[index]] == sockets[..index + 1];
        index := index + 1;
      }
      if index == |sockets| {
        return sockets;
      }
      assert sockets[index..][1..] == sockets[index + 1..];
      return sockets[..index] + sockets[index + 1..];
    }

    method OnDisconnect(user: User, socket: Socket)
      requires Valid()
      modifies this
      ensures Valid() && View() == Step(old(View()), Disconnect(user, socket))
      ensures user !in old(connections) ==> View() == old(View())
      ensures user in old(connections) ==>
                var left := RemoveSocket(old(connections)[user], socket);
                connections == if left == [] then old(connections) - {user} else old(connections)[user := left]
      ensures old(user in connections && connections[user] == [socket]) ==>
                && user !in connections && dropped == old(dropped) + OfUser(old(pendingRequests), user)
    {
      StepKeeps(View(), Disconnect(user, socket));
      if user in connections {
        var left := Splice(connections[user], socket);
        connections := connections[user := left];
        if |left| == 0 {
          connections := connections - {user};
          ClearUserPendingRequests(user);
        }
      }
    }

    method ClearUserPendingRequests(user: User)
      modifies `pendingRequests, `timers, `dropped
      ensures View() == Drop(old(View()), OfUser(old(pendingRequests), user))
    {
      hide OfUser, ClearedBut;
      ghost var before, running, lost := pendingRequests, timers, dropped;
      OfUserKeys(before, running, lost, user);
      var ids := pendingRequests.Keys;
      while ids != {}
        invariant ids <= before.Keys
        invariant ClearedBut(before, running, lost, user, ids, pendingRequests, timers, dropped)
        decreases |ids|
      {
        var id :| id in ids;
        ClearStep(before, running, lost, user, ids, id, pendingRequests, timers, dropped);
        ids := ids - {id};
        if pendingRequests[id] == user {
          timers := timers - {id};
          pendingRequests := pendingRequests - {id};
          dropped := dropped + {id};
        }
      }
      ClearedAll(before, running, lost, user, pendingRequests, timers, dropped);
    }

    // The maps after all of a user's requests but those in ids have been cleared.
    static ghost predicate ClearedBut(before: map<Id, User>, running: set<Id>, lost: set<Id>, user: User, ids: set<Id>,
                                      pending: map<Id, User>, timers: set<Id>, dropped: set<Id>) {
      var cleared := OfUser(before, user) - ids;
      pending == before - cleared && timers == running - cleared && dropped == lost + cleared
    }

    static lemma ClearedAll(before: map<Id, User>, running: set<Id>, lost: set<Id>, user: User,
                            pending: map<Id, User>, timers: set<Id>, dropped: set<Id>)
      requires ClearedBut(before, running, lost, user, {}, pending, timers, dropped)
      ensures pending == before - OfUser(before, user) && timers == running - OfUser(before, user)
      ensures dropped == lost + OfUser(before, user)
    {
      assert OfUser(before, user) - {} == OfUser(before, user);
    }

    static lemma OfUserKeys(before: map<Id, User>, running: set<Id>, lost: set<Id>, user: User)
      ensures ClearedBut(before, running, lost, user, before.Keys, before, running, lost)
    {
      assert OfUser(before, user) - before.Keys == {};
      assert before - {} == before;
    }

    static lemma ClearStep(before: map<Id, User>, running: set<Id>, lost: set<Id>, user: User, ids: set<Id>, id: Id,
                           pending: map<Id, User>, timers: set<Id>, dropped: set<Id>)
      requires id in ids && ids <= before.Keys
      requires ClearedBut(before, running, lost, user, ids, pending, timers, dropped)
      ensures id in pending
      ensures pending[id] == user ==>
                ClearedBut(before, running, lost, user, ids - {id}, pending - {id}, timers - {id}, dropped + {id})
      ensures pending[id] != user ==> ClearedBut(before, running, lost, user, ids - {id}, pending, timers, dropped)
    {
      var done, next := OfUser(before, user) - ids, OfUser(before, user) - (ids - {id});
      assert id !in done && pending[id] == before[id];
      if before[id] == user {
        assert next == done + {id};
        assert before - next == before - done - {id};
      } else {
        assert next == done;
      }
    }

    method ClearAllPendingRequests()
      modifies `pendingRequests, `timers, `dropped
      ensures View() == Drop(old(View()), old(pendingRequests).Keys)
    {
      var ids := pendingRequests.Keys;
      while ids != {}
        invariant ids <= pendingRequests.Keys
        invariant pendingRequests == old(pendingRequests) && dropped == old(dropped)
        invariant timers == old(timers) - (pendingRequests.Keys - ids)
        decreases |ids|
      {
        var id :| id in ids;
        ids := ids - {id};
        timers := timers - {id};
      }
      dropped := dropped + pendingRequests.Keys;
      pendingRequests := map[];
      assert old(pendingRequests) - old(pendingRequests).Keys == map[];
    }

    method DisconnectAllClients()
      requires Valid()
      modifies this
      ensures Valid() && View() == Step(old(View()), DisconnectAll)
      ensures connections == map[] && pendingRequests == map[] && timers == {} && resolutions == old(resolutions)
      ensures dropped == old(dropped) + old(pendingRequests).Keys
    {
      StepKeeps(View(), DisconnectAll);
      ClearAllPendingRequests();
      connections := map[];
    }

    method AddPendingRequest(id: Id, user: User)
      modifies `pendingRequests
      ensures pendingRequests == old(pendingRequests)[id := user]
    {
      pendingRequests := pendingRequests[id := user];
    }

    method RemovePendingRequest(id: Id)
      modifies `pendingRequests, `timers
      ensures pendingRequests == old(pendingRequests) - {id}
      ensures timers == if id in old(pendingRequests) then old(timers) - {id} else old(timers)
    {
      if id in pendingRequests {
        timers := timers - {id};
        pendingRequests := pendingRequests - {id};
      }
    }

    // resolved says whether a resolver was called.
    method HandleClientResponse(id: Id, body: string) returns (resolved: bool)
      requires Valid()
      modifies this
      ensures Valid() && View() == Step(old(View()), Respond(id, body))
      ensures resolved <==> id in old(pendingRequests)
      ensures resolved ==>
                && resolutions == old(resolutions) + [Resolution(id, Answered(body))]
                && pendingRequests == old(pendingRequests) - {id} && timers == old(timers) - {id}
      ensures !resolved ==> View() == old(View())
    {
      StepKeeps(View(), Respond(id, body));
      if id in pendingRequests {
        timers := timers - {id};
        resolutions := resolutions + [Resolution(id, Answered(body))];
        pendingRequests := pendingRequests - {id};
        return true;
      }
      return false;
    }
  }

  class SocketNotifier {
    const service: SocketService
    // The session notification under way for a user, by its number.
    var inFlight: map<User, nat>
    var count: nat
    // Who each notification was for, in the order they started, and which have ended.
    ghost var started: seq<User>
    ghost var ended: set<nat>

    constructor (service: SocketService)
      ensures this.service == service && OneEach() && started == []
    {
      this.service := service;
      inFlight, count := map[], 0;
      started, ended := [], {};
    }

    // The map holds exactly the notifications under way, so a user never has two.
    ghost predicate OneEach()
      reads this
    {
      && count == |started| && (forall n :: n in ended ==> n < count)
      && (forall u :: u in inFlight ==> inFlight[u] < |started| && started[inFlight[u]] == u && inFlight[u] !in ended)
      && (forall n :: 0 <= n < |started| && n !in ended ==> started[n] in inFlight && inFlight[started[n]] == n)
    }

    // notifyOnlineSessions: joins the user's notification if one is under way, else starts one.
    method NotifyOnlineSessions(user: User) returns (n: nat)
      requires OneEach()
      modifies `inFlight, `count, `started
      ensures OneEach() && n < |started| && started[n] == user && n !in ended
      ensures user in old(inFlight) ==> n == old(inFlight)[user] && started == old(started)
      ensures user !in old(inFlight) ==> n == |old(started)| && started == old(started) + [user]
    {
      if user in inFlight {
        return inFlight[user];
      }
      n, count := count, count + 1;
      started := started + [user];
      inFlight := inFlight[user := n];
    }

    // The finally block of the user's notification.
    method NotificationEnded(user: User)
      requires OneEach() && user in inFlight
      modifies `inFlight, `ended
      ensures OneEach() && user !in inFlight && ended == old(ended) + {old(inFlight)[user]}
      ensures inFlight == old(inFlight) - {user}
    {
      ended := ended + {inFlight[user]};
      inFlight := inFlight - {user};
    }

    // sendRequest with a fresh request id; registered is false for the immediate answer that the
    // user is offline.
    method SendRequest(user: User, id: Id) returns (registered: bool)
      requires service.Valid() && id !in service.sent
      modifies service
      ensures service.Valid() && service.View() == Step(old(service.View()), Send(user, id))
      ensures registered <==> old(service.IsUserOnline(user))
      ensures registered ==>
                && service.pendingRequests == old(service.pendingRequests)[id := user]
                && service.timers == old(service.timers) + {id}
      ensures !registered ==> service.View() == old(service.View())
    {
      StepKeeps(service.View(), Send(user, id));
      if !service.IsUserOnline(user) {
        return false;
      }
      service.timers := service.timers + {id};
      service.AddPendingRequest(id, user);
      service.sent := service.sent + {id};
      return true;
    }

    // The timer callback of a request.
    method OnTimeout(id: Id)
      requires service.Valid() && id in service.timers
      modifies service
      ensures service.Valid() && service.View() == Step(old(service.View()), TimerFires(id))
      ensures service.resolutions == old(service.resolutions) + [Resolution(id, TimedOut)]
      ensures service.pendingRequests == old(service.pendingRequests) - {id} && service.timers == old(service.timers) - {id}
    {
      StepKeeps(service.View(), TimerFires(id));
      service.RemovePendingRequest(id);
      service.resolutions := service.resolutions + [Resolution(id, TimedOut)];
    }
  }
}
