// The flat access-order map: keys, their stamps, and the order the stamps give.
module AccessIndex {
  import opened Wrappers
  import opened Text
  import opened RecencyList

  // `${streamId}:${eventId}`
  function AccessKey(stream: string, id: string): string {
    stream + [':'] + id
  }

  function KeyOf(x: Entry): string {
    AccessKey(x.stream, x.id)
  }

  // accessKey.split(':') as eviction reads it: the first two parts.
  function SplitKey(key: string): (string, Option<string>) {
    var parts := Split(key, ':');
    (parts[0], if |parts| >= 2 then Some(parts[1]) else None)
  }

  // Eviction finds an entry by its access key exactly when neither id holds a ':'.
  lemma KeySplitsBack(stream: string, id: string)
    ensures SplitKey(AccessKey(stream, id)) == (stream, Some(id)) <==> ':' !in stream && ':' !in id
  {
    if ':' !in stream {
      SplitFirst(stream, ':', id);
      if ':' !in id {
        SplitPlain(id, ':');
      }
    }
  }

  // An entry the cache can find again: ids that survive the key, the event under its own id.
  predicate CleanEntry(x: Entry) {
    ':' !in x.stream && ':' !in x.id && x.id != "" && x.event.eventId == x.id
  }

  lemma KeysDiffer(x: Entry, y: Entry)
    requires CleanEntry(x) && CleanEntry(y)
    ensures KeyOf(x) == KeyOf(y) <==> x.stream == y.stream && x.id == y.id
  {
    KeySplitsBack(x.stream, x.id);
    KeySplitsBack(y.stream, y.id);
  }

  // The access keys of a list, in its order.
  function KeySeq(l: Recency): (keys: seq<string>)
    ensures |keys| == |l| && forall i :: 0 <= i < |l| ==> keys[i] == KeyOf(l[i])
  {
    seq(|l|, i requires 0 <= i < |l| => KeyOf(l[i]))
  }

  lemma KeySeqMember(l: Recency, x: Entry)
    requires x in l
    ensures KeyOf(x) in KeySeq(l)
  {
    var i :| 0 <= i < |l| && l[i] == x;
    assert KeySeq(l)[i] == KeyOf(x);
  }

  // Stamps strictly increase along the keys.
  ghost predicate Stamped(keys: seq<string>, order: map<string, nat>) {
    && (forall k :: k in keys ==> k in order)
    && (forall i, j :: 0 <= i < j < |keys| ==> order[keys[i]] < order[keys[j]])
  }

  // The access order has exactly these keys, stamped in their order.
  ghost predicate Indexed(keys: seq<string>, order: map<string, nat>, counter: nat) {
    && (forall k :: k in order ==> k in keys && order[k] <= counter)
    && Stamped(keys, order)
  }

  lemma StampedTail(keys: seq<string>, order: map<string, nat>)
    requires keys != [] && Stamped(keys, order)
    ensures Stamped(keys[1..], order)
    ensures forall k :: k in keys[1..] ==> order[keys[0]] < order[k]
  {
    forall k | k in keys[1..]
      ensures order[keys[0]] < order[k]
    {
      var i :| 0 <= i < |keys[1..]| && keys[1..][i] == k;
      assert keys[i + 1] == k;
    }
  }

  lemma StampedCons(k: string, keys: seq<string>, order: map<string, nat>)
    requires Stamped(keys, order) && k in order && forall j :: j in keys ==> order[k] < order[j]
    ensures Stamped([k] + keys, order)
  {
  }

  lemma StampedSame(keys: seq<string>, order: map<string, nat>, order': map<string, nat>)
    requires Stamped(keys, order)
    requires forall k :: k in keys ==> k in order' && order'[k] == order[k]
    ensures Stamped(keys, order')
  {
    forall i, j | 0 <= i < j < |keys|
      ensures order'[keys[i]] < order'[keys[j]]
    {
      assert keys[i] in keys && keys[j] in keys;
    }
  }

  lemma {:induction false} KeepStamped(l: Recency, r: Rule, order: map<string, nat>)
    requires Stamped(KeySeq(l), order)
    ensures Stamped(KeySeq(Keep(l, r)), order)
    ensures forall k :: k in KeySeq(Keep(l, r)) ==> k in KeySeq(l)
  {
    hide KeyOf, Keeps;
    if l != [] {
      StampedTail(KeySeq(l), order);
      assert KeySeq(l)[1..] == KeySeq(l[1..]) && KeySeq(l)[0] == KeyOf(l[0]);
      KeepStamped(l[1..], r, order);
      if Keeps(r, l[0]) {
        assert KeySeq(Keep(l, r)) == [KeyOf(l[0])] + KeySeq(Keep(l[1..], r));
        StampedCons(KeyOf(l[0]), KeySeq(Keep(l[1..], r)), order);
      }
    }
  }

  // Removing the keys of the dropped entries keeps the index of the rest.
  lemma IndexedKept(l: Recency, order: map<string, nat>, counter: nat, r: Rule, order': map<string, nat>)
    requires Indexed(KeySeq(l), order, counter)
    requires forall k :: k in order' ==> k in order && order'[k] == order[k]
    requires forall x :: x in l ==> (KeyOf(x) in order' <==> Keeps(r, x))
    ensures Indexed(KeySeq(Keep(l, r)), order', counter)
  {
    hide KeyOf, Keep, Keeps;
    var kept := Keep(l, r);
    KeepMembers(l, r);
    KeepStamped(l, r, order);
    forall k | k in order'
      ensures k in KeySeq(kept)
    {
      var i :| 0 <= i < |l| && KeySeq(l)[i] == k;
      assert l[i] in kept;
      KeySeqMember(kept, l[i]);
    }
    forall k | k in KeySeq(kept)
      ensures k in order'
    {
      var i :| 0 <= i < |kept| && KeySeq(kept)[i] == k;
      assert kept[i] in kept;
    }
    StampedSame(KeySeq(kept), order, order');
  }

  lemma IndexedRemoved(l: Recency, order: map<string, nat>, counter: nat, x: Entry)
    requires Indexed(KeySeq(l), order, counter) && CleanEntry(x) && forall y :: y in l ==> CleanEntry(y)
    ensures Indexed(KeySeq(Keep(l, Except(x.stream, x.id))), order - {KeyOf(x)}, counter)
  {
    forall y | y in l
      ensures KeyOf(y) in order - {KeyOf(x)} <==> Keeps(Except(x.stream, x.id), y)
    {
      KeysDiffer(x, y);
      KeySeqMember(l, y);
    }
    IndexedKept(l, order, counter, Except(x.stream, x.id), order - {KeyOf(x)});
  }

  // A new key takes the next stamp at the recent end.
  lemma IndexedPushed(keys: seq<string>, order: map<string, nat>, counter: nat, k: string)
    requires Indexed(keys, order, counter) && k !in keys
    ensures Indexed(keys + [k], order[k := counter + 1], counter + 1)
  {
    var order' := order[k := counter + 1];
    assert forall j :: j in keys + [k] <==> j in keys || j == k;
    StampedSame(keys, order, order');
    forall i, j | 0 <= i < j < |keys + [k]|
      ensures order'[(keys + [k])[i]] < order'[(keys + [k])[j]]
    {
      assert keys[i] in keys && keys[i] in order;
    }
  }

  // Stamping a pair, whether or not it is indexed, moves it to the recent end.
  lemma IndexedSet(l: Recency, order: map<string, nat>, counter: nat, x: Entry)
    requires Indexed(KeySeq(l), order, counter) && CleanEntry(x) && forall y :: y in l ==> CleanEntry(y)
    ensures Indexed(KeySeq(Keep(l, Except(x.stream, x.id)) + [x]), order[KeyOf(x) := counter + 1], counter + 1)
  {
    var kept, order1 := Keep(l, Except(x.stream, x.id)), order - {KeyOf(x)};
    IndexedRemoved(l, order, counter, x);
    assert KeyOf(x) !in order1;
    IndexedPushed(KeySeq(kept), order1, counter, KeyOf(x));
    assert order1[KeyOf(x) := counter + 1] == order[KeyOf(x) := counter + 1];
    assert KeySeq(kept + [x]) == KeySeq(kept) + [KeyOf(x)];
  }

  // Array.from(accessOrder.entries()).sort by stamp, the keys only.
  function ByStamp(order: map<string, nat>, keys: set<string>): (sorted: seq<string>)
    requires keys <= order.Keys
    requires forall a, b :: a in keys && b in keys && order[a] == order[b] ==> a == b
    ensures keys == {} ==> sorted == []
    ensures keys != {} ==> sorted != [] && sorted[0] in keys && forall k :: k in keys ==> order[sorted[0]] <= order[k]
  {
    if keys == {} then []
    else
      EarliestExists(order, keys);
      var first :| first in keys && forall k :: k in keys ==> order[first] <= order[k];
      [first] + ByStamp(order, keys - {first})
  }

  lemma {:induction false} EarliestExists(order: map<string, nat>, keys: set<string>)
    requires keys != {} && keys <= order.Keys
    ensures exists first :: first in keys && forall k :: k in keys ==> order[first] <= order[k]
  {
    var k :| k in keys;
    if keys != {k} {
      EarliestExists(order, keys - {k});
      var first :| first in keys - {k} && forall j :: j in keys - {k} ==> order[first] <= order[j];
      var earliest := if order[first] <= order[k] then first else k;
      assert forall j :: j in keys ==> order[earliest] <= order[j];
    } else {
      assert forall j :: j in keys ==> j == k;
    }
  }

  // Sorting by stamp lists the keys in the order of the recency list.
  lemma {:induction false} SortedIsRecency(keys: seq<string>, order: map<string, nat>, all: set<string>)
    requires Stamped(keys, order) && forall k :: k in all <==> k in keys
    ensures all <= order.Keys
    ensures forall a, b :: a in all && b in all && order[a] == order[b] ==> a == b
    ensures ByStamp(order, all) == keys
  {
    StampsDistinct(keys, order);
    if keys != [] {
      FirstStamp(keys, order);
      var rest := all - {keys[0]};
      SortedIsRecency(keys[1..], order, rest);
      FirstIsSorted(order, all, keys[0]);
    } else {
      assert all == {};
    }
  }

  lemma FirstStamp(keys: seq<string>, order: map<string, nat>)
    requires keys != [] && Stamped(keys, order)
    ensures keys[0] in keys && Stamped(keys[1..], order) && keys[0] !in keys[1..]
    ensures forall k :: k in keys ==> order[keys[0]] <= order[k] && (k == keys[0] || k in keys[1..])
  {
    StampedTail(keys, order);
  }

  lemma FirstIsSorted(order: map<string, nat>, all: set<string>, first: string)
    requires all <= order.Keys && forall a, b :: a in all && b in all && order[a] == order[b] ==> a == b
    requires first in all && forall k :: k in all ==> order[first] <= order[k]
    ensures ByStamp(order, all) == [first] + ByStamp(order, all - {first})
  {
  }

  lemma StampsDistinct(keys: seq<string>, order: map<string, nat>)
    requires Stamped(keys, order)
    ensures forall a, b :: a in keys && b in keys && order[a] == order[b] ==> a == b
  {
    forall a, b | a in keys && b in keys && order[a] == order[b]
      ensures a == b
    {
      var i :| 0 <= i < |keys| && keys[i] == a;
      var j :| 0 <= j < |keys| && keys[j] == b;
      assert i == j;
    }
  }
}
