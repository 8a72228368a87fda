// Requests to a user's devices that wait for an answer: responses, timeouts and
// disconnections race for each of them.
module PendingRequests {
  type Id = string
  type User = string
  type Socket = string

  datatype Outcome = Answered(body: string) | TimedOut

  datatype Resolution = Resolution(id: Id, outcome: Outcome)

  // pending maps a request to its user; armed are the running timers; connections lists the
  // devices of each user; resolutions are the resolver calls in order; sent are all requests ever
  // registered and dropped those whose resolver was thrown away.
  datatype State = State(
    pending: map<Id, User>, armed: set<Id>, connections: map<User, seq<Socket>>,
    resolutions: seq<Resolution>, sent: set<Id>, dropped: set<Id>)

  datatype Event =
    | Connect(user: User, socket: Socket)
    | Disconnect(user: User, socket: Socket)
    | DisconnectAll
    | Send(user: User, id: Id)
    | Respond(id: Id, body: string)
    | TimerFires(id: Id)

  function Empty(): State {
    State(map[], {}, map[], [], {}, {})
  }

  predicate IsOnline(s: State, user: User) {
    user in s.connections && |s.connections[user]| > 0
  }

  // Request ids are fresh, and only an armed timer fires.
  predicate Possible(s: State, ev: Event) {
    match ev
    case Send(_, id) => id !in s.sent
    case TimerFires(id) => id in s.armed
    case _ => true
  }

  function RemoveSocket(sockets: seq<Socket>, socket: Socket): seq<Socket> {
    if sockets == [] then []
    else if sockets[0] == socket then sockets[1..]
    else [sockets[0]] + RemoveSocket(sockets[1..], socket)
  }

  function OfUser(pending: map<Id, User>, user: User): set<Id> {
    set id | id in pending && pending[id] == user
  }

  function Drop(s: State, ids: set<Id>): State {
    s.(pending := s.pending - ids, armed := s.armed - ids, dropped := s.dropped + ids)
  }

  function Resolve(s: State, id: Id, outcome: Outcome): State {
    s.(pending := s.pending - {id}, armed := s.armed - {id}, resolutions := s.resolutions + [Resolution(id, outcome)])
  }

  function Step(s: State, ev: Event): State
    requires Possible(s, ev)
  {
    match ev
    case Connect(user, socket) =>
      var sockets := if user in s.connections then s.connections[user] else [];
      s.(connections := s.connections[user := sockets + [socket]])
    case Disconnect(user, socket) =>
      if user !in s.connections then s
      else
        var left := RemoveSocket(s.connections[user], socket);
        if left == [] then Drop(s.(connections := s.connections - {user}), OfUser(s.pending, user))
        else s.(connections := s.connections[user := left])
    case DisconnectAll => Drop(s, s.pending.Keys).(connections := map[])
    case Send(user, id) =>
      if IsOnline(s, user)
      then s.(pending := s.pending[id := user], armed := s.armed + {id}, sent := s.sent + {id})
      else s
    case Respond(id, body) => if id in s.pending then Resolve(s, id, Answered(body)) else s
    case TimerFires(id) => Resolve(s, id, TimedOut)
  }

  /* ---------- what every step keeps ---------- */

  predicate Resolved(s: State, id: Id) {
    exists k :: 0 <= k < |s.resolutions| && s.resolutions[k].id == id
  }

  ghost predicate Inv(s: State) {
    && s.armed == s.pending.Keys
    && (forall user :: user in s.connections ==> s.connections[user] != [])
    && (forall id :: id in s.pending ==> IsOnline(s, s.pending[id]))
    && (forall i, j :: 0 <= i < j < |s.resolutions| ==> s.resolutions[i].id != s.resolutions[j].id)
    && (forall id :: id in s.sent <==> id in s.pending || id in s.dropped || Resolved(s, id))
    && (forall id :: id in s.pending ==> id !in s.dropped && !Resolved(s, id))
    && (forall id :: id in s.dropped ==> !Resolved(s, id))
  }

  lemma ResolvedMore(s: State, r: Resolution, id: Id)
    ensures Resolved(s.(resolutions := s.resolutions + [r]), id) <==> Resolved(s, id) || id == r.id
  {
    var t := s.(resolutions := s.resolutions + [r]);
    assert t.resolutions[|s.resolutions|] == r;
    if Resolved(s, id) {
      var k :| 0 <= k < |s.resolutions| && s.resolutions[k].id == id;
      assert t.resolutions[k].id == id;
    }
  }

  lemma ResolveKeeps(s: State, id: Id, outcome: Outcome)
    requires Inv(s) && id in s.pending
    ensures Inv(Resolve(s, id, outcome))
  {
    var t := Resolve(s, id, outcome);
    forall x
      ensures Resolved(t, x) <==> Resolved(s, x) || x == id
    {
      ResolvedMore(s, Resolution(id, outcome), x);
    }
    forall i, j | 0 <= i < j < |t.resolutions|
      ensures t.resolutions[i].id != t.resolutions[j].id
    {
      if j == |s.resolutions| {
        assert s.resolutions[i].id != id;
      }
    }
  }

  lemma DropKeeps(s: State, ids: set<Id>)
    requires Inv(s) && ids <= s.pending.Keys
    ensures Inv(Drop(s, ids))
  {
    var t := Drop(s, ids);
    assert forall id :: Resolved(t, id) <==> Resolved(s, id);
  }

  lemma ConnectionsKeep(s: State, connections: map<User, seq<Socket>>)
    requires Inv(s)
    requires forall user :: user in connections ==> connections[user] != []
    requires forall id :: id in s.pending ==> s.pending[id] in connections
    ensures Inv(s.(connections := connections))
  {
    var t := s.(connections := connections);
    assert forall id :: Resolved(t, id) <==> Resolved(s, id);
  }

  lemma StepKeeps(s: State, ev: Event)
    requires Inv(s) && Possible(s, ev)
    ensures Inv(Step(s, ev))
  {
    hide Resolved;
    match ev
    case Connect(user, socket) => ConnectionsKeep(s, Step(s, ev).connections);
    case Disconnect(user, socket) =>
      if user in s.connections {
        if RemoveSocket(s.connections[user], socket) == [] {
          DropKeeps(s, OfUser(s.pending, user));
          ConnectionsKeep(Drop(s, OfUser(s.pending, user)), s.connections - {user});
          assert Step(s, ev) == Drop(s, OfUser(s.pending, user)).(connections := s.connections - {user});
        } else {
          ConnectionsKeep(s, Step(s, ev).connections);
        }
      }
    case DisconnectAll =>
      DropKeeps(s, s.pending.Keys);
      ConnectionsKeep(Drop(s, s.pending.Keys), map[]);
    case Send(user, id) => SendKeeps(s, user, id);
    case Respond(id, body) =>
      if id in s.pending {
        ResolveKeeps(s, id, Answered(body));
      }
    case TimerFires(id) => ResolveKeeps(s, id, TimedOut);
  }

  lemma SendKeeps(s: State, user: User, id: Id)
    requires Inv(s) && id !in s.sent
    ensures Inv(Step(s, Send(user, id)))
  {
    var t := Step(s, Send(user, id));
    assert forall x :: Resolved(t, x) <==> Resolved(s, x);
  }

  /* ---------- runs ---------- */

  ghost predicate Run(states: seq<State>, events: seq<Event>) {
    && |states| == |events| + 1
    && states[0] == Empty()
    && forall k :: 0 <= k < |events| ==> Moves(states[k], events[k], states[k + 1])
  }

  ghost predicate Moves(s: State, ev: Event, t: State) {
    Possible(s, ev) && t == Step(s, ev)
  }

  lemma {:induction false} InvAlways(states: seq<State>, events: seq<Event>, k: nat)
    requires Run(states, events) && k < |states|
    ensures Inv(states[k])
  {
    if k > 0 {
      InvAlways(states, events, k - 1);
      assert Moves(states[k - 1], events[k - 1], states[k]);
      StepKeeps(states[k - 1], events[k - 1]);
    }
  }

  // The resolver of a request is called at most once, whatever races for it.
  lemma ResolvedAtMostOnce(states: seq<State>, events: seq<Event>, k: nat, i: nat, j: nat)
    requires Run(states, events) && k < |states|
    requires i < j < |states[k].resolutions|
    ensures states[k].resolutions[i].id != states[k].resolutions[j].id
  {
    InvAlways(states, events, k);
  }

  // A request is pending exactly while its timer is armed, and only for a user who is online.
  lemma PendingWhileArmed(states: seq<State>, events: seq<Event>, k: nat)
    requires Run(states, events) && k < |states|
    ensures states[k].armed == states[k].pending.Keys
    ensures forall id :: id in states[k].pending ==> IsOnline(states[k], states[k].pending[id])
  {
    InvAlways(states, events, k);
  }

  datatype Fate = Unsent | Waiting | Settled(outcome: Outcome) | Lost

  ghost predicate HasFate(s: State, id: Id, fate: Fate) {
    match fate
    case Unsent => id !in s.sent
    case Waiting => id in s.pending
    case Settled(outcome) => Resolution(id, outcome) in s.resolutions
    case Lost => id in s.dropped
  }

  // Every request has one and only one fate at any time.
  lemma OneFate(s: State, id: Id)
    requires Inv(s)
    ensures exists fate :: HasFate(s, id, fate)
    ensures forall f, g :: HasFate(s, id, f) && HasFate(s, id, g) ==> f == g
  {
    if Resolved(s, id) {
      var k :| 0 <= k < |s.resolutions| && s.resolutions[k].id == id;
      assert HasFate(s, id, Settled(s.resolutions[k].outcome));
    } else {
      assert HasFate(s, id, Unsent) || HasFate(s, id, Waiting) || HasFate(s, id, Lost);
    }
    forall f, g | HasFate(s, id, f) && HasFate(s, id, g)
      ensures f == g
    {
      SameFate(s, id, f, g);
    }
  }

  lemma SettledIsResolved(s: State, id: Id, outcome: Outcome)
    requires Resolution(id, outcome) in s.resolutions
    ensures Resolved(s, id)
  {
  }

  lemma SameFate(s: State, id: Id, f: Fate, g: Fate)
    requires Inv(s) && HasFate(s, id, f) && HasFate(s, id, g)
    ensures f == g
  {
    if f.Settled? {
      SettledIsResolved(s, id, f.outcome);
    }
    if g.Settled? {
      SettledIsResolved(s, id, g.outcome);
    }
    if f.Settled? && g.Settled? {
      var i :| 0 <= i < |s.resolutions| && s.resolutions[i] == Resolution(id, f.outcome);
      var j :| 0 <= j < |s.resolutions| && s.resolutions[j] == Resolution(id, g.outcome);
      assert i == j;
    }
  }

  // A settled or lost request stays as it is: in particular a dropped resolver is never called.
  lemma {:induction false} FateIsFinal(states: seq<State>, events: seq<Event>, j: nat, k: nat, id: Id, fate: Fate)
    requires Run(states, events) && j <= k < |states|
    requires HasFate(states[j], id, fate) && (fate.Settled? || fate.Lost?)
    ensures HasFate(states[k], id, fate)
    decreases k
  {
    if j < k {
      FateIsFinal(states, events, j, k - 1, id, fate);
      assert Moves(states[k - 1], events[k - 1], states[k]);
      FateStep(states[k - 1], events[k - 1], id, fate);
    }
  }

  lemma FateStep(s: State, ev: Event, id: Id, fate: Fate)
    requires Possible(s, ev) && HasFate(s, id, fate) && (fate.Settled? || fate.Lost?)
    ensures HasFate(Step(s, ev), id, fate)
  {
    match ev
    case Respond(r, body) =>
      if fate.Settled? {
        assert forall x :: x in s.resolutions ==> x in s.resolutions + [Resolution(r, Answered(body))];
      }
    case TimerFires(r) =>
      if fate.Settled? {
        assert forall x :: x in s.resolutions ==> x in s.resolutions + [Resolution(r, TimedOut)];
      }
    case _ =>
  }

  // What calls a request's resolver, and with what.
  ghost predicate Settles(s: State, ev: Event, id: Id, outcome: Outcome) {
    match outcome
    case Answered(body) => ev == Respond(id, body) && id in s.pending
    case TimedOut => ev == TimerFires(id)
  }

  // What throws it away: everyone is disconnected, or the last device of its user is.
  ghost predicate Loses(s: State, ev: Event, id: Id) {
    && id in s.pending
    && (ev.DisconnectAll? || (ev.Disconnect? && ev.user == s.pending[id] && ev.user in s.connections
                               && s.connections[ev.user] == [ev.socket]))
  }

  // A request has been answered with a body exactly if that response came while it was pending, and
  // has timed out exactly if its timer fired.
  lemma {:induction false} SettledIff(states: seq<State>, events: seq<Event>, k: nat, id: Id, outcome: Outcome)
    requires Run(states, events) && k < |states|
    ensures Resolution(id, outcome) in states[k].resolutions <==>
            exists j :: 0 <= j < k && Settles(states[j], events[j], id, outcome)
  {
    if k > 0 {
      SettledIff(states, events, k - 1, id, outcome);
      assert Moves(states[k - 1], events[k - 1], states[k]);
      SettledStep(states[k - 1], events[k - 1], id, outcome);
    }
  }

  lemma SettledStep(s: State, ev: Event, id: Id, outcome: Outcome)
    requires Possible(s, ev)
    ensures Resolution(id, outcome) in Step(s, ev).resolutions <==>
            Resolution(id, outcome) in s.resolutions || Settles(s, ev, id, outcome)
  {
    var more := Step(s, ev).resolutions;
    if |more| > |s.resolutions| {
      assert more[..|s.resolutions|] == s.resolutions && more == s.resolutions + [more[|s.resolutions|]];
    }
  }

  // A request has been lost exactly if one of those disconnections came while it was pending.
  lemma {:induction false} LostIff(states: seq<State>, events: seq<Event>, k: nat, id: Id)
    requires Run(states, events) && k < |states|
    ensures id in states[k].dropped <==> exists j :: 0 <= j < k && Loses(states[j], events[j], id)
  {
    if k > 0 {
      LostIff(states, events, k - 1, id);
      InvAlways(states, events, k - 1);
      assert Moves(states[k - 1], events[k - 1], states[k]);
      LostStep(states[k - 1], events[k - 1], id);
    }
  }

  lemma LostStep(s: State, ev: Event, id: Id)
    requires Inv(s) && Possible(s, ev)
    ensures id in Step(s, ev).dropped <==> id in s.dropped || Loses(s, ev, id)
  {
    if ev.Disconnect? && ev.user in s.connections {
      var sockets := s.connections[ev.user];
      var i := RemovesOne(sockets, ev.socket);
      assert RemoveSocket(sockets, ev.socket) == [] <==> sockets == [ev.socket];
    }
  }

  // And it was sent exactly if its user had a device when it was; then it waits for that user.
  lemma {:induction false} SentIff(states: seq<State>, events: seq<Event>, k: nat, id: Id)
    requires Run(states, events) && k < |states|
    ensures id in states[k].sent <==> exists j, user :: 0 <= j < k && events[j] == Send(user, id) && IsOnline(states[j], user)
    ensures id in states[k].pending ==> exists j :: 0 <= j < k && events[j] == Send(states[k].pending[id], id)
  {
    if k > 0 {
      SentIff(states, events, k - 1, id);
      assert Moves(states[k - 1], events[k - 1], states[k]);
    }
  }

  // A device that goes away is taken from the list once, where it first stands.
  lemma {:induction false} RemovesOne(sockets: seq<Socket>, socket: Socket) returns (i: nat)
    ensures socket !in sockets ==> RemoveSocket(sockets, socket) == sockets
    ensures socket in sockets ==>
              && i < |sockets| && sockets[i] == socket && socket !in sockets[..i]
              && RemoveSocket(sockets, socket) == sockets[..i] + sockets[i + 1..]
  {
    i := 0;
    if sockets != [] && sockets[0] != socket {
      var rest := sockets[1..];
      var j := RemovesOne(rest, socket);
      assert sockets == [sockets[0]] + rest;
      if socket in rest {
        i := j + 1;
        assert sockets[..i] == [sockets[0]] + rest[..j] && sockets[i + 1..] == rest[j + 1..];
      }
    }
  }

  // A waiting request leaves that state only by its own response, its own timer, the last
  // device of its user going away, or a disconnection of everyone.
  lemma WaitingEnds(s: State, ev: Event, id: Id)
    requires Inv(s) && Possible(s, ev) && id in s.pending
    ensures id in Step(s, ev).pending <==>
            match ev {
              case Respond(r, _) => r != id
              case TimerFires(r) => r != id
              case DisconnectAll => false
              case Disconnect(user, socket) =>
                user != s.pending[id] || RemoveSocket(s.connections[user], socket) != []
              case _ => true
            }
    ensures id in Step(s, ev).pending ==> Step(s, ev).pending[id] == s.pending[id]
  {
  }

  // A response to an unknown, answered, expired or dropped request changes nothing.
  lemma LateResponseChangesNothing(s: State, id: Id, body: string)
    requires Inv(s)
    ensures Step(s, Respond(id, body)) == s <==> id !in s.pending
  {
    if id in s.pending {
      assert |Step(s, Respond(id, body)).resolutions| == |s.resolutions| + 1;
    }
  }

  // When the last device of a user goes, exactly that user's requests are dropped.
  lemma LastDeviceDrops(s: State, user: User, socket: Socket)
    requires Inv(s) && user in s.connections && s.connections[user] == [socket]
    ensures var t := Step(s, Disconnect(user, socket));
            && !IsOnline(t, user)
            && t.dropped == s.dropped + OfUser(s.pending, user)
            && t.pending.Keys == s.pending.Keys - OfUser(s.pending, user)
            && t.resolutions == s.resolutions
  {
    assert RemoveSocket([socket], socket) == [];
  }
}
