// EventCacheManager: the two-level map of events, the flat access-order map, and
// their agreement with the recency list that specifies them.
module EventCache {
  import opened Wrappers
  import opened Text
  import opened RecencyList
  import opened EventReplay
  import opened AccessIndex

  type Cache = map<string, map<string, CachedEvent>>

  predicate Cached(c: Cache, x: Entry) {
    x.stream in c && x.id in c[x.stream] && c[x.stream][x.id] == x.event
  }

  // The two-level map holds exactly the entries of the list.
  ghost predicate Holds(l: Recency, c: Cache) {
    && (forall x :: x in l ==> CleanEntry(x) && Cached(c, x))
    && (forall s, e :: s in c && e in c[s] ==> Entry(s, e, c[s][e]) in l)
  }

  // Both maps and the counter say what the list says.
  ghost predicate Agrees(l: Recency, c: Cache, order: map<string, nat>, counter: nat) {
    Holds(l, c) && Indexed(KeySeq(l), order, counter)
  }

  lemma AgreesDistinct(l: Recency, c: Cache, order: map<string, nat>, counter: nat)
    requires Agrees(l, c, order, counter)
    ensures Distinct(l)
  {
    var keys := KeySeq(l);
    forall i, j | 0 <= i < j < |l|
      ensures l[i].stream != l[j].stream || l[i].id != l[j].id
    {
      assert order[keys[i]] < order[keys[j]];
    }
  }

  // Removing entries from the two-level map is removing them from the list.
  lemma HoldsKept(l: Recency, c: Cache, r: Rule, c': Cache)
    requires Holds(l, c)
    requires forall x :: x in l && Keeps(r, x) ==> Cached(c', x)
    requires forall s, e :: s in c' && e in c'[s] ==>
               s in c && e in c[s] && c'[s][e] == c[s][e] && Keeps(r, Entry(s, e, c[s][e]))
    ensures Holds(Keep(l, r), c')
  {
    KeepMembers(l, r);
  }

  lemma HoldsPushed(l: Recency, c: Cache, x: Entry)
    requires Holds(l, c) && CleanEntry(x) && x.stream in c
    requires forall y :: y in l ==> y.stream != x.stream || y.id != x.id
    ensures Holds(l + [x], c[x.stream := c[x.stream][x.id := x.event]])
  {
    assert forall y :: y in l + [x] <==> y in l || y == x;
  }

  // Setting a pair, whether or not it is cached, moves it to the recent end.
  lemma AgreesSet(l: Recency, c: Cache, order: map<string, nat>, counter: nat, x: Entry)
    requires Agrees(l, c, order, counter) && CleanEntry(x) && x.stream in c
    ensures Agrees(Keep(l, Except(x.stream, x.id)) + [x],
                   c[x.stream := c[x.stream][x.id := x.event]], order[KeyOf(x) := counter + 1], counter + 1)
  {
    HoldsSet(l, c, x);
    IndexedSet(l, order, counter, x);
  }

  lemma HoldsSet(l: Recency, c: Cache, x: Entry)
    requires Holds(l, c) && CleanEntry(x) && x.stream in c
    ensures Holds(Keep(l, Except(x.stream, x.id)) + [x], c[x.stream := c[x.stream][x.id := x.event]])
  {
    var r, kept := Except(x.stream, x.id), Keep(l, Except(x.stream, x.id));
    KeepMembers(l, r);
    var c1 := c[x.stream := c[x.stream] - {x.id}];
    HoldsKept(l, c, r, c1);
    HoldsPushed(kept, c1, x);
    assert c1[x.stream][x.id := x.event] == c[x.stream][x.id := x.event];
    assert c1[x.stream := c1[x.stream][x.id := x.event]] == c[x.stream := c[x.stream][x.id := x.event]];
  }

  // Removing one cached pair, with its stream when that was its last event.
  lemma AgreesRemoved(l: Recency, c: Cache, order: map<string, nat>, counter: nat, s: string, e: string, c': Cache)
    requires Agrees(l, c, order, counter) && s in c && e in c[s]
    requires c' == c[s := c[s] - {e}] || (c' == c - {s} && c[s] - {e} == map[])
    ensures Agrees(Keep(l, Except(s, e)), c', order - {AccessKey(s, e)}, counter)
  {
    var x := Entry(s, e, c[s][e]);
    assert x in l && KeyOf(x) == AccessKey(s, e);
    IndexedRemoved(l, order, counter, x);
    forall y | y in l && Keeps(Except(s, e), y)
      ensures Cached(c', y)
    {
      if y.stream == s {
        assert y.id in c[s] - {e};
      }
    }
    HoldsKept(l, c, Except(s, e), c');
  }

  lemma KeepTail(l: Recency)
    requires l != [] && Distinct(l)
    ensures Keep(l, Except(l[0].stream, l[0].id)) == l[1..]
  {
    forall y | y in l[1..]
      ensures Keeps(Except(l[0].stream, l[0].id), y)
    {
      var k :| 0 <= k < |l[1..]| && l[1..][k] == y;
      assert l[k + 1] == y;
    }
    KeepAll(l[1..], Except(l[0].stream, l[0].id));
  }

  lemma {:induction false} KeepShortens(l: Recency, r: Rule, x: Entry)
    requires x in l && !Keeps(r, x) && Distinct(l)
    ensures |Keep(l, r)| < |l|
  {
    if l[0] != x {
      KeepShortens(l[1..], r, x);
    } else {
      KeepDistinct(l[1..], r);
    }
  }

  // A stream's share of the list is its number of cached ids.
  lemma {:induction false} StreamShare(l: Recency, s: string)
    requires Distinct(l)
    ensures |l| == |Keep(l, ExceptStream(s))| + |Ids(l, s)|
  {
    if l != [] {
      var rest := l[1..];
      StreamShare(rest, s);
      assert forall x :: x in l <==> x == l[0] || x in rest;
      if l[0].stream == s {
        forall x | x in rest && x.stream == s
          ensures x.id != l[0].id
        {
          var k :| 0 <= k < |rest| && rest[k] == x;
          assert l[k + 1] == x;
        }
        assert Ids(l, s) == Ids(rest, s) + {l[0].id} && l[0].id !in Ids(rest, s);
      } else {
        assert Ids(l, s) == Ids(rest, s);
      }
    } else {
      assert Ids(l, s) == {};
    }
  }

  lemma CachedIds(l: Recency, c: Cache, order: map<string, nat>, counter: nat, s: string)
    requires Agrees(l, c, order, counter)
    ensures Ids(l, s) == if s in c then c[s].Keys else {}
  {
    if s in c {
      forall e | e in c[s]
        ensures e in Ids(l, s)
      {
        assert Entry(s, e, c[s][e]) in l;
      }
    }
  }

  // What expiry leaves of one stream's map.
  function FreshPart(m: map<string, CachedEvent>, now: int): map<string, CachedEvent> {
    map e | e in m && now - m[e].timestamp <= MAX_AGE :: m[e]
  }

  function StalePart(m: map<string, CachedEvent>, now: int): set<string> {
    set e | e in m && now - m[e].timestamp > MAX_AGE
  }

  // The access keys of some ids of one stream.
  function KeysOf(stream: string, ids: set<string>): set<string> {
    set e | e in ids :: AccessKey(stream, e)
  }

  lemma MinusTwice<V>(m: map<string, V>, a: set<string>, b: set<string>)
    ensures (m - a) - b == m - (a + b)
  {
  }

  lemma FreshIsTheRest(m: map<string, CachedEvent>, now: int)
    ensures m - StalePart(m, now) == FreshPart(m, now)
    ensures |FreshPart(m, now)| == 0 <==> FreshPart(m, now) == map[]
  {
  }

  lemma NoKeys(stream: string)
    ensures KeysOf(stream, {}) == {}
  {
  }

  lemma MoreKeys(stream: string, ids: set<string>, id: string)
    ensures KeysOf(stream, ids + {id}) == KeysOf(stream, ids) + {AccessKey(stream, id)}
  {
  }

  lemma KeysOfMember(l: Recency, c: Cache, s: string, ids: set<string>, x: Entry)
    requires Holds(l, c) && x in l && s in c && ids <= c[s].Keys
    ensures KeyOf(x) in KeysOf(s, ids) <==> x.stream == s && x.id in ids
  {
    if KeyOf(x) in KeysOf(s, ids) {
      var e :| e in ids && KeyOf(x) == AccessKey(s, e);
      KeysDiffer(x, Entry(s, e, c[s][e]));
    }
  }

  lemma AgreesStreamDropped(l: Recency, c: Cache, order: map<string, nat>, counter: nat, s: string)
    requires Agrees(l, c, order, counter) && s in c
    ensures Agrees(Keep(l, ExceptStream(s)), c - {s}, order - KeysOf(s, c[s].Keys), counter)
  {
    HoldsKept(l, c, ExceptStream(s), c - {s});
    forall x | x in l
      ensures KeyOf(x) in order - KeysOf(s, c[s].Keys) <==> Keeps(ExceptStream(s), x)
    {
      KeySeqMember(l, x);
      KeysOfMember(l, c, s, c[s].Keys, x);
    }
    IndexedKept(l, order, counter, ExceptStream(s), order - KeysOf(s, c[s].Keys));
  }

  function ExpiredStream(c: Cache, s: string, now: int): Cache
    requires s in c
  {
    if FreshPart(c[s], now) == map[] then c - {s} else c[s := FreshPart(c[s], now)]
  }

  lemma AgreesStreamExpired(
    l: Recency, c: Cache, order: map<string, nat>, counter: nat, s: string, now: int, streams: set<string>)
    requires Agrees(l, c, order, counter) && s in c && s !in streams
    requires forall x :: x in l && x.stream != s ==> Keeps(FreshOutside(streams, now), x)
    ensures Agrees(Keep(l, FreshOutside(streams, now)), ExpiredStream(c, s, now),
                   order - KeysOf(s, StalePart(c[s], now)), counter)
  {
    HoldsStreamExpired(l, c, s, now, streams);
    hide ExpiredStream, KeyOf, KeysOf;
    forall x | x in l
      ensures KeyOf(x) in order - KeysOf(s, StalePart(c[s], now)) <==> Keeps(FreshOutside(streams, now), x)
    {
      KeySeqMember(l, x);
      KeysOfMember(l, c, s, StalePart(c[s], now), x);
    }
    IndexedKept(l, order, counter, FreshOutside(streams, now), order - KeysOf(s, StalePart(c[s], now)));
  }

  lemma HoldsStreamExpired(l: Recency, c: Cache, s: string, now: int, streams: set<string>)
    requires Holds(l, c) && s in c && s !in streams
    requires forall x :: x in l && x.stream != s ==> Keeps(FreshOutside(streams, now), x)
    ensures Holds(Keep(l, FreshOutside(streams, now)), ExpiredStream(c, s, now))
  {
    var r, c' := FreshOutside(streams, now), ExpiredStream(c, s, now);
    forall x | x in l && Keeps(r, x)
      ensures Cached(c', x)
    {
      assert Cached(c, x);
      if x.stream == s {
        assert x.id in FreshPart(c[s], now);
      }
    }
    forall s', e | s' in c' && e in c'[s']
      ensures s' in c && e in c[s'] && c'[s'][e] == c[s'][e] && Keeps(r, Entry(s', e, c[s'][e]))
    {
      assert Entry(s', e, c[s'][e]) in l;
    }
    HoldsKept(l, c, r, c');
  }

  // No stream holds more than its limit; a limit of 0 still lets one event in.
  ghost predicate Bounded(c: Cache, perStream: nat) {
    forall s :: s in c ==> |c[s]| <= if perStream == 0 then 1 else perStream
  }

  ghost predicate NoneEmpty(c: Cache) {
    forall s :: s in c ==> c[s] != map[]
  }

  lemma EmptyStream(l: Recency, c: Cache, order: map<string, nat>, counter: nat, s: string, perStream: nat)
    requires Agrees(l, c, order, counter) && Bounded(c, perStream) && s !in c
    ensures Agrees(l, c[s := map[]], order, counter) && Bounded(c[s := map[]], perStream)
  {
  }

  lemma BoundsSet(c: Cache, s: string, e: string, v: CachedEvent, perStream: nat)
    requires s in c && Bounded(c, perStream) && |c[s]| < if perStream == 0 then 1 else perStream
    requires forall t :: t in c && t != s ==> c[t] != map[]
    ensures Bounded(c[s := c[s][e := v]], perStream) && NoneEmpty(c[s := c[s][e := v]])
  {
    assert (c[s][e := v]).Keys == c[s].Keys + {e};
  }

  lemma BoundOf(c: Cache, s: string, perStream: nat)
    requires s in c && Bounded(c, perStream)
    ensures |c[s]| <= if perStream == 0 then 1 else perStream
  {
  }

  lemma BoundsShrunk(c: Cache, s: string, rest: map<string, CachedEvent>, perStream: nat)
    requires s in c && Bounded(c, perStream) && |rest| <= |c[s]|
    ensures Bounded(c[s := rest], perStream)
  {
  }

  lemma CachedIsListed(l: Recency, c: Cache, order: map<string, nat>, counter: nat, s: string, e: string)
    requires Agrees(l, c, order, counter) && s in c && e in c[s]
    ensures Entry(s, e, c[s][e]) in l && CleanEntry(Entry(s, e, c[s][e]))
  {
  }

  lemma BoundsRemoved(c: Cache, s: string, e: string, perStream: nat)
    requires s in c && e in c[s] && Bounded(c, perStream) && NoneEmpty(c)
    ensures |c[s] - {e}| == 0 ==> c[s] - {e} == map[] && Bounded(c - {s}, perStream) && NoneEmpty(c - {s})
    ensures |c[s] - {e}| != 0 ==> Bounded(c[s := c[s] - {e}], perStream) && NoneEmpty(c[s := c[s] - {e}])
  {
    assert (c[s] - {e}).Keys == c[s].Keys - {e};
    assert |c[s] - {e}| == |c[s]| - 1;
  }

  lemma BoundsExpired(c: Cache, s: string, now: int, perStream: nat)
    requires s in c && Bounded(c, perStream) && NoneEmpty(c)
    ensures Bounded(ExpiredStream(c, s, now), perStream) && NoneEmpty(ExpiredStream(c, s, now))
    ensures c.Keys - {s} <= ExpiredStream(c, s, now).Keys
  {
    assert FreshPart(c[s], now).Keys <= c[s].Keys;
    SubsetSmaller(FreshPart(c[s], now).Keys, c[s].Keys);
  }

  lemma SubsetSmaller(a: set<string>, b: set<string>)
    requires a <= b
    ensures |a| <= |b|
  {
    assert b == a + (b - a);
  }

  // The loop of getEventsAfter over one stream's events, sorted by id.
  method CollectAfter(streamCache: map<string, CachedEvent>, afterEventId: string) returns (events: seq<CachedEvent>)
    requires forall e :: e in streamCache ==> streamCache[e].eventId == e
    ensures forall i, j :: 0 <= i < j < |events| ==> Less(events[i].eventId, events[j].eventId)
    ensures afterEventId !in streamCache ==> events == []
    ensures afterEventId in streamCache ==> forall v :: v in events <==>
              v.eventId in streamCache && v == streamCache[v.eventId] && Less(afterEventId, v.eventId)
  {
    hide Less, Sorted;
    var sorted := Sorted(streamCache.Keys);
    events := [];
    var foundLastEvent := false;
    var i := 0;
    ghost var p := 0;
    while i < |sorted|
      invariant 0 <= i <= |sorted|
      invariant !foundLastEvent ==> events == [] && forall k :: 0 <= k < i ==> sorted[k] != afterEventId
      invariant foundLastEvent ==> p < i && sorted[p] == afterEventId && |events| == i - p - 1
      invariant foundLastEvent ==> forall b :: 0 <= b < |events| ==> events[b] == streamCache[sorted[p + 1 + b]]
    {
      var event := streamCache[sorted[i]];
      assert event.eventId == sorted[i];
      if event.eventId == afterEventId {
        if foundLastEvent {
          LessAsymmetric(sorted[p], sorted[i]);
        }
        foundLastEvent := true;
        p := i;
      } else if foundLastEvent {
        events := events + [event];
      }
      i := i + 1;
    }
    if foundLastEvent {
      TailIsLater(streamCache, sorted, p, events);
    }
  }

  lemma TailIsLater(streamCache: map<string, CachedEvent>, sorted: seq<string>, p: nat, events: seq<CachedEvent>)
    requires forall e :: e in streamCache ==> streamCache[e].eventId == e
    requires forall e :: e in sorted <==> e in streamCache
    requires forall i, j :: 0 <= i < j < |sorted| ==> Less(sorted[i], sorted[j])
    requires p < |sorted| && |events| == |sorted| - p - 1
    requires forall b :: 0 <= b < |events| ==> events[b] == streamCache[sorted[p + 1 + b]]
    ensures forall v :: v in events <==>
              v.eventId in streamCache && v == streamCache[v.eventId] && Less(sorted[p], v.eventId)
  {
    hide Less;
    forall v
      ensures v in events <==> v.eventId in streamCache && v == streamCache[v.eventId] && Less(sorted[p], v.eventId)
    {
      if v.eventId in streamCache && v == streamCache[v.eventId] && Less(sorted[p], v.eventId) {
        var k :| 0 <= k < |sorted| && sorted[k] == v.eventId;
        LessAsymmetric(sorted[p], sorted[k]);
        assert p < k;
        assert events[k - p - 1] == v;
      }
    }
  }

  // What expiry leaves: the events that are at most a day old.
  ghost predicate OnlyFresh(before: Recency, after: Recency, now: int) {
    forall x :: x in after <==> x in before && now - x.event.timestamp <= 24 * 60 * 60 * 1000
  }

  lemma FreshMembers(l: Recency, now: int)
    ensures OnlyFresh(l, Keep(l, FreshAt(now)), now)
  {
    KeepMembers(l, FreshAt(now));
  }

  class EventCacheManager {
    var cache: Cache
    var accessOrder: map<string, nat>
    var accessCounter: nat
    const maxCacheSize: nat
    const maxStreamEvents: nat

    // The recency list this object implements.
    ghost var lru: Recency

    ghost predicate Consistent()
      reads this
    {
      Agrees(lru, cache, accessOrder, accessCounter) && Bounded(cache, maxStreamEvents)
    }

    ghost predicate Valid()
      reads this
    {
      Consistent() && NoneEmpty(cache) && |lru| <= maxCacheSize
    }

    function TheLimits(): Limits {
      Limits(maxCacheSize, maxStreamEvents)
    }

    constructor (maxCacheSize: nat, maxStreamEvents: nat)
      ensures Valid() && lru == []
      ensures this.maxCacheSize == maxCacheSize && this.maxStreamEvents == maxStreamEvents
    {
      cache := map[];
      accessOrder := map[];
      accessCounter := 0;
      this.maxCacheSize := maxCacheSize;
      this.maxStreamEvents := maxStreamEvents;
      lru := [];
    }

    method SetEvent(streamId: string, eventId: string, event: CachedEvent)
      requires Valid() && CleanEntry(Entry(streamId, eventId, event))
      modifies this
      ensures Valid()
      ensures lru == Set(old(lru), Entry(streamId, eventId, event), TheLimits())
    {
      hide Agrees, Bounded, CleanEntry, Keep, Ids;
      ghost var x := Entry(streamId, eventId, event);
      if streamId !in cache {
        EmptyStream(lru, cache, accessOrder, accessCounter, streamId, maxStreamEvents);
        cache := cache[streamId := map[]];
      }
      CachedIds(lru, cache, accessOrder, accessCounter, streamId);
      BoundOf(cache, streamId, maxStreamEvents);
      if |cache[streamId]| >= maxStreamEvents {
        EvictOldestFromStream(streamId);
      }
      assert lru == EvictOldest(old(lru), streamId, TheLimits());
      AgreesSet(lru, cache, accessOrder, accessCounter, x);
      BoundsSet(cache, streamId, eventId, event, maxStreamEvents);
      cache := cache[streamId := cache[streamId][eventId := event]];
      lru := Keep(lru, Except(streamId, eventId)) + [x];
      UpdateAccessOrder(streamId, eventId);
      EnforceTotalCacheLimit();
    }

    // The stream loses its smallest id, if it has any event.
    method EvictOldestFromStream(streamId: string)
      requires Consistent() && streamId in cache
      modifies this`cache, this`accessOrder, this`lru
      ensures Consistent() && cache.Keys == old(cache).Keys
      ensures forall s :: s in cache && s != streamId ==> cache[s] == old(cache)[s]
      ensures old(cache)[streamId] != map[] ==>
                && |cache[streamId]| == |old(cache)[streamId]| - 1
                && lru == Keep(old(lru), Except(streamId, Least(old(cache)[streamId].Keys)))
      ensures old(cache)[streamId] == map[] ==> lru == old(lru) && cache == old(cache)
    {
      hide Bounded, Agrees;
      CachedIds(lru, cache, accessOrder, accessCounter, streamId);
      if |cache[streamId]| > 0 {
        var oldest := Least(cache[streamId].Keys);
        CachedIsListed(lru, cache, accessOrder, accessCounter, streamId, oldest);
        if oldest != "" {
          var rest := cache[streamId] - {oldest};
          assert rest.Keys == cache[streamId].Keys - {oldest};
          AgreesRemoved(lru, cache, accessOrder, accessCounter, streamId, oldest, cache[streamId := rest]);
          BoundsShrunk(cache, streamId, rest, maxStreamEvents);
          lru := Keep(lru, Except(streamId, oldest));
          cache := cache[streamId := rest];
          accessOrder := accessOrder - {AccessKey(streamId, oldest)};
        }
      }
    }

    method UpdateAccessOrder(streamId: string, eventId: string)
      modifies this`accessOrder, this`accessCounter
      ensures accessCounter == old(accessCounter) + 1
      ensures accessOrder == old(accessOrder)[AccessKey(streamId, eventId) := accessCounter]
    {
      accessCounter := accessCounter + 1;
      accessOrder := accessOrder[AccessKey(streamId, eventId) := accessCounter];
    }

    // The number of cached events is the length of the list.
    method TotalEvents() returns (total: nat)
      requires Consistent()
      ensures total == |lru|
    {
      hide Agrees, Bounded;
      total := 0;
      var left := cache.Keys;
      ghost var rest := lru;
      AgreesDistinct(lru, cache, accessOrder, accessCounter);
      StreamsCached(lru, cache, accessOrder, accessCounter);
      while left != {}
        invariant left <= cache.Keys
        invariant total + |rest| == |lru| && Distinct(rest)
        invariant forall x :: x in rest <==> x in lru && x.stream in left
        decreases left
      {
        var s :| s in left;
        CachedIds(lru, cache, accessOrder, accessCounter, s);
        assert Ids(rest, s) == Ids(lru, s);
        StreamShare(rest, s);
        KeepMembers(rest, ExceptStream(s));
        KeepDistinct(rest, ExceptStream(s));
        rest := Keep(rest, ExceptStream(s));
        total := total + |cache[s]|;
        left := left - {s};
      }
      HeadIsMember(rest);
    }

    method EnforceTotalCacheLimit()
      requires Consistent() && NoneEmpty(cache)
      modifies this`cache, this`accessOrder, this`lru
      ensures Valid()
      ensures lru == DropOldest(old(lru), maxCacheSize)
    {
      var total := TotalEvents();
      if total > maxCacheSize {
        EvictLruEvents(total - maxCacheSize);
      }
    }

    // Walks the access order from the smallest stamp and removes `count` events.
    method EvictLruEvents(count: nat)
      requires count <= |lru|
      requires Consistent() && NoneEmpty(cache)
      modifies this`cache, this`accessOrder, this`lru
      ensures Consistent() && NoneEmpty(cache)
      ensures lru == old(lru)[count..]
    {
      hide Agrees, Bounded, NoneEmpty, SplitKey, KeyOf, Keep;
      SortedAgrees(lru, cache, accessOrder, accessCounter);
      var sortedAccess := ByStamp(accessOrder, accessOrder.Keys);
      var removedCount, i := 0, 0;
      while i < |sortedAccess| && removedCount < count
        invariant 0 <= i <= |sortedAccess| && removedCount == i <= count
        invariant lru == old(lru)[i..]
        invariant Consistent() && NoneEmpty(cache)
      {
        OldestIsFound(lru, cache, accessOrder, accessCounter);
        assert sortedAccess[i] == KeyOf(lru[0]);
        var (streamId, eventId) := SplitKey(sortedAccess[i]);
        if eventId.Some? && streamId in cache && eventId.value in cache[streamId] {
          RemovePair(streamId, eventId.value);
          removedCount := removedCount + 1;
        }
        i := i + 1;
      }
    }

    // Deletes one event, its access record, and its stream when nothing is left in it.
    method RemovePair(streamId: string, eventId: string)
      requires streamId in cache && eventId in cache[streamId]
      requires Consistent() && NoneEmpty(cache)
      modifies this`cache, this`accessOrder, this`lru
      ensures Consistent() && NoneEmpty(cache)
      ensures lru == Keep(old(lru), Except(streamId, eventId))
    {
      hide Agrees, Bounded, NoneEmpty;
      var streamCache := cache[streamId] - {eventId};
      BoundsRemoved(cache, streamId, eventId, maxStreamEvents);
      var remaining := if |streamCache| == 0 then cache - {streamId} else cache[streamId := streamCache];
      AgreesRemoved(lru, cache, accessOrder, accessCounter, streamId, eventId, remaining);
      lru := Keep(lru, Except(streamId, eventId));
      cache := remaining;
      accessOrder := accessOrder - {AccessKey(streamId, eventId)};
    }

    method GetEvent(streamId: string, eventId: string) returns (r: Option<CachedEvent>)
      requires Valid()
      modifies this`accessOrder, this`accessCounter, this`lru
      ensures Valid()
      ensures lru == Get(old(lru), streamId, eventId)
      ensures r.Some? <==> exists x :: x in old(lru) && x.stream == streamId && x.id == eventId
      ensures r.Some? ==> Entry(streamId, eventId, r.value) in old(lru)
    {
      hide Agrees, Bounded, NoneEmpty, Keep, Find;
      ListedIsCached(lru, cache, accessOrder, accessCounter, streamId, eventId);
      if streamId !in cache || eventId !in cache[streamId] {
        return None;
      }
      r := Some(cache[streamId][eventId]);
      ghost var x := Entry(streamId, eventId, r.value);
      HitFindsEntry(lru, cache, accessOrder, accessCounter, x);
      lru := Keep(lru, Except(streamId, eventId)) + [x];
      UpdateAccessOrder(streamId, eventId);
    }

    method CleanupStream(streamId: string)
      requires Valid()
      modifies this`cache, this`accessOrder, this`lru
      ensures Valid()
      ensures lru == Keep(old(lru), ExceptStream(streamId))
      ensures forall x :: x in lru <==> x in old(lru) && x.stream != streamId
    {
      KeepMembers(lru, ExceptStream(streamId));
      hide Agrees, Bounded, NoneEmpty;
      AgreesDistinct(lru, cache, accessOrder, accessCounter);
      KeepDistinct(lru, ExceptStream(streamId));
      if streamId in cache {
        AgreesStreamDropped(lru, cache, accessOrder, accessCounter, streamId);
        BoundsDropped(cache, streamId, maxStreamEvents);
        RemoveAccessKeys(streamId, cache[streamId].Keys);
        lru := Keep(lru, ExceptStream(streamId));
        cache := cache - {streamId};
      } else {
        AbsentStream(lru, cache, accessOrder, accessCounter, streamId);
      }
    }

    // for (const eventId of ids) accessOrder.delete(`${streamId}:${eventId}`)
    method RemoveAccessKeys(streamId: string, ids: set<string>)
      modifies this`accessOrder
      ensures accessOrder == old(accessOrder) - KeysOf(streamId, ids)
    {
      hide KeysOf;
      var left := ids;
      NoKeys(streamId);
      assert ids - left == {};
      while left != {}
        invariant left <= ids
        invariant accessOrder == old(accessOrder) - KeysOf(streamId, ids - left)
        decreases left
      {
        var eventId :| eventId in left;
        MoreKeys(streamId, ids - left, eventId);
        assert ids - (left - {eventId}) == (ids - left) + {eventId};
        accessOrder := accessOrder - {AccessKey(streamId, eventId)};
        left := left - {eventId};
      }
      assert ids - left == ids;
    }

    method CleanupExpired(now: int)
      requires Valid()
      modifies this`cache, this`accessOrder, this`lru
      ensures Valid()
      ensures lru == Keep(old(lru), FreshAt(now))
      ensures OnlyFresh(old(lru), lru, now)
    {
      hide Agrees, Bounded, NoneEmpty, ExpiredStream, KeysOf, StalePart, Keep, Keeps, OnlyFresh;
      var streams := cache.Keys;
      AllStreamsLeft(lru, cache, accessOrder, accessCounter, now);
      while streams != {}
        invariant streams <= cache.Keys
        invariant lru == Keep(old(lru), FreshOutside(streams, now))
        invariant Consistent() && NoneEmpty(cache) && |lru| <= maxCacheSize
        decreases streams
      {
        var streamId :| streamId in streams;
        var rest := streams - {streamId};
        OneStreamLess(old(lru), streams, streamId, now);
        AgreesStreamExpired(lru, cache, accessOrder, accessCounter, streamId, now, rest);
        BoundsExpired(cache, streamId, now, maxStreamEvents);
        AgreesDistinct(lru, cache, accessOrder, accessCounter);
        KeepDistinct(lru, FreshOutside(rest, now));
        ExpireStream(streamId, now);
        lru := Keep(lru, FreshOutside(rest, now));
        streams := rest;
      }
      NoStreamLeft(old(lru), now);
      FreshMembers(old(lru), now);
    }

    // The inner loop of cleanupExpired: one stream, then the stream itself if empty.
    method ExpireStream(streamId: string, now: int)
      requires streamId in cache
      modifies this`cache, this`accessOrder
      ensures cache == ExpiredStream(old(cache), streamId, now)
      ensures accessOrder == old(accessOrder) - KeysOf(streamId, StalePart(old(cache)[streamId], now))
    {
      hide KeysOf, AccessKey;
      var all := cache[streamId];
      var streamCache, left := all, all.Keys;
      ghost var gone: set<string> := {};
      NoKeys(streamId);
      while left != {}
        invariant left <= all.Keys
        invariant gone == StalePart(all, now) - left
        invariant streamCache == all - gone && cache == old(cache)
        invariant accessOrder == old(accessOrder) - KeysOf(streamId, gone)
        decreases left
      {
        var eventId :| eventId in left;
        if now - all[eventId].timestamp > MAX_AGE {
          MoreKeys(streamId, gone, eventId);
          MinusTwice(all, gone, {eventId});
          MinusTwice(old(accessOrder), KeysOf(streamId, gone), {AccessKey(streamId, eventId)});
          streamCache := streamCache - {eventId};
          accessOrder := accessOrder - {AccessKey(streamId, eventId)};
          gone := gone + {eventId};
        }
        left := left - {eventId};
      }
      assert gone == StalePart(all, now);
      FreshIsTheRest(all, now);
      cache := if |streamCache| == 0 then cache - {streamId} else cache[streamId := streamCache];
    }

    method ClearAll()
      modifies this
      ensures Valid() && lru == []
    {
      cache := map[];
      accessOrder := map[];
      accessCounter := 0;
      lru := [];
    }

    // A cached id is answered with exactly the cached events of greater id, in order.
    method GetEventsAfter(streamId: string, afterEventId: string) returns (events: seq<CachedEvent>)
      requires Valid()
      ensures afterEventId in Ids(lru, streamId) ==> IsReplay(lru, streamId, afterEventId, events)
      ensures afterEventId !in Ids(lru, streamId) ==> events == []
    {
      hide Agrees, Bounded, NoneEmpty, Less;
      CachedIds(lru, cache, accessOrder, accessCounter, streamId);
      if streamId !in cache {
        return [];
      }
      StreamEvents(lru, cache, accessOrder, accessCounter, streamId);
      events := CollectAfter(cache[streamId], afterEventId);
    }
  }

  lemma BoundsDropped(c: Cache, s: string, perStream: nat)
    requires Bounded(c, perStream) && NoneEmpty(c)
    ensures Bounded(c - {s}, perStream) && NoneEmpty(c - {s})
  {
  }

  lemma AbsentStream(l: Recency, c: Cache, order: map<string, nat>, counter: nat, s: string)
    requires Agrees(l, c, order, counter) && s !in c
    ensures Keep(l, ExceptStream(s)) == l
  {
    KeepAll(l, ExceptStream(s));
  }

  lemma AllStreamsLeft(l: Recency, c: Cache, order: map<string, nat>, counter: nat, now: int)
    requires Agrees(l, c, order, counter)
    ensures Keep(l, FreshOutside(c.Keys, now)) == l
  {
    KeepAll(l, FreshOutside(c.Keys, now));
  }

  lemma OneStreamLess(l: Recency, streams: set<string>, s: string, now: int)
    requires s in streams
    ensures var rest := streams - {s};
            && Keep(Keep(l, FreshOutside(streams, now)), FreshOutside(rest, now)) == Keep(l, FreshOutside(rest, now))
            && forall x :: x in Keep(l, FreshOutside(streams, now)) && x.stream != s ==> Keeps(FreshOutside(rest, now), x)
  {
    var rest := streams - {s};
    KeepTwice(l, FreshOutside(streams, now), FreshOutside(rest, now), FreshOutside(rest, now));
    KeepMembers(l, FreshOutside(streams, now));
  }

  lemma NoStreamLeft(l: Recency, now: int)
    ensures Keep(l, FreshOutside({}, now)) == Keep(l, FreshAt(now))
  {
    KeepTwice(l, FreshOutside({}, now), FreshOutside({}, now), FreshAt(now));
    KeepMembers(l, FreshOutside({}, now));
    KeepAll(Keep(l, FreshOutside({}, now)), FreshOutside({}, now));
  }

  lemma ListedIsCached(l: Recency, c: Cache, order: map<string, nat>, counter: nat, s: string, e: string)
    requires Agrees(l, c, order, counter)
    ensures (exists x :: x in l && x.stream == s && x.id == e) <==> s in c && e in c[s]
  {
    if s in c && e in c[s] {
      assert Entry(s, e, c[s][e]) in l;
    }
  }

  lemma HeadIsMember(l: Recency)
    ensures l != [] ==> l[0] in l
  {
  }

  lemma StreamsCached(l: Recency, c: Cache, order: map<string, nat>, counter: nat)
    requires Agrees(l, c, order, counter)
    ensures forall x :: x in l ==> x.stream in c
  {
  }

  // The sorted access order is the list of keys, oldest first.
  lemma SortedAgrees(l: Recency, c: Cache, order: map<string, nat>, counter: nat)
    requires Agrees(l, c, order, counter)
    ensures forall a, b :: a in order && b in order && order[a] == order[b] ==> a == b
    ensures ByStamp(order, order.Keys) == KeySeq(l)
  {
    SortedIsRecency(KeySeq(l), order, order.Keys);
  }

  lemma OldestIsFound(l: Recency, c: Cache, order: map<string, nat>, counter: nat)
    requires Agrees(l, c, order, counter) && l != []
    ensures SplitKey(KeyOf(l[0])) == (l[0].stream, Some(l[0].id))
    ensures l[0].stream in c && l[0].id in c[l[0].stream]
    ensures Keep(l, Except(l[0].stream, l[0].id)) == l[1..]
  {
    var x := l[0];
    assert x in l;
    KeySplitsBack(x.stream, x.id);
    AgreesDistinct(l, c, order, counter);
    KeepTail(l);
  }

  lemma HitFindsEntry(l: Recency, c: Cache, order: map<string, nat>, counter: nat, x: Entry)
    requires Agrees(l, c, order, counter) && Cached(c, x)
    ensures x in l && Find(l, x.stream, x.id) == x
    ensures |Keep(l, Except(x.stream, x.id))| < |l|
    ensures Agrees(Keep(l, Except(x.stream, x.id)) + [x], c, order[KeyOf(x) := counter + 1], counter + 1)
  {
    AgreesDistinct(l, c, order, counter);
    AgreesSet(l, c, order, counter, x);
    assert c[x.stream][x.id := x.event] == c[x.stream];
    assert c[x.stream := c[x.stream]] == c;
    assert x in l;
    hide Agrees, Keep;
    SameEntry(l, Find(l, x.stream, x.id), x);
    KeepShortens(l, Except(x.stream, x.id), x);
  }

  lemma StreamEvents(l: Recency, c: Cache, order: map<string, nat>, counter: nat, s: string)
    requires Agrees(l, c, order, counter) && s in c
    ensures forall e :: e in c[s] ==> c[s][e].eventId == e
    ensures forall v :: v in Events(l, s) <==> v.eventId in c[s] && v == c[s][v.eventId]
  {
    forall e | e in c[s]
      ensures c[s][e].eventId == e && c[s][e] in Events(l, s)
    {
      assert Entry(s, e, c[s][e]) in l;
    }
  }
}
