// The IP whitelist: a cached list of addresses and networks, refreshed from the
// database, and the entries a client address is checked against.
module IpWhitelist {
  import opened Wrappers
  import opened Numbers
  import opened Text
  import opened Ipv4

  const ANY := "0.0.0.0/0"
  const CACHE_EXPIRY := 15 * 60 * 1000

  // What a whitelist lets in.
  predicate Allowed(ip: string, entries: seq<string>) {
    exists k :: 0 <= k < |entries| && Matches(ip, entries[k])
  }

  // The entry "0.0.0.0/0" matches every client, so testing for it first changes nothing.
  lemma AnyMatches(ip: string)
    ensures Matches(ip, ANY)
  {
    AnySplits();
  }

  // An entry the validator accepts: a canonical address, or one with a prefix length.
  ghost predicate ValidEntry(entry: string) {
    if '/' !in entry then Canonical(entry)
    else
      HasTwoParts(entry, '/');
      var parts := Split(entry, '/');
      var bits := ParseInt(parts[1]);
      bits.Some? && 0 <= bits.value <= 32 && Canonical(parts[0])
  }

  method IsValidIpOrCidr(entry: string) returns (ok: bool)
    ensures ok <==> ValidEntry(entry)
  {
    AnyIsValid();
    if entry == ANY {
      return true;
    }
    if '/' in entry {
      HasTwoParts(entry, '/');
      var parts := Split(entry, '/');
      var bits := ParseInt(parts[1]);
      if bits.None? || bits.value < 0 || bits.value > 32 {
        return false;
      }
      ok := IsValidIp(parts[0]);
    } else {
      ok := IsValidIp(entry);
    }
  }

  lemma AnyIsValid()
    ensures ValidEntry(ANY)
  {
    hide Canonical;
    AnySplits();
    ZeroIsCanonical();
  }

  lemma AnySplits()
    ensures '/' in ANY && Split(ANY, '/') == ["0.0.0.0", "0"] && ParseInt("0") == Some(0)
  {
    assert ANY[7] == '/';
    SplitJoin(["0.0.0.0", "0"], '/');
    assert ["0.0.0.0", "0"][1..] == ["0"];
    assert Join(["0"], '/') == "0";
    assert "0.0.0.0" + ['/'] + "0" == ANY;
    ParseDigits(0);
    assert [Digit(0)] == "0";
  }

  lemma ZeroIsCanonical()
    ensures Canonical("0.0.0.0")
  {
    var zero: seq<int> := [0, 0, 0, 0];
    assert Octets(zero);
    assert ToString(0) == "0";
    assert Printed(zero) == ["0", "0", "0", "0"];
    JoinFour(["0", "0", "0", "0"], '.');
    assert Dotted(zero) == "0.0.0.0";
  }

  // A valid entry means what it says: an address matches it exactly when it denotes a number
  // with the same leading bits, and a zero length matches everything.
  lemma ValidEntryMeaning(ip: string, entry: string)
    requires ValidEntry(entry) && '/' in entry
    ensures |Split(entry, '/')| >= 2 && ParseInt(Split(entry, '/')[1]).Some?
    ensures var parts := Split(entry, '/');
            var b := ParseInt(parts[1]).value;
            0 <= b <= 32 && (Matches(ip, entry) <==> b == 0 || InNetwork(Normalize(ip), parts[0], b))
  {
    HasTwoParts(entry, '/');
    KeptBitsExact(ParseInt(Split(entry, '/')[1]).value);
  }

  class IpWhitelistService {
    var whitelist: seq<string>
    var lastCacheUpdate: int
    var initialized: bool

    predicate Valid()
      reads this
    {
      whitelist != []
    }

    constructor ()
      ensures Valid() && whitelist == [ANY] && lastCacheUpdate == 0 && !initialized
    {
      whitelist, lastCacheUpdate, initialized := [ANY], 0, false;
    }

    // The database query is a parameter: its rows in order, or the error it threw.
    method LoadFromDatabase(records: Result<seq<string>, string>, now: int) returns (ok: bool)
      requires Valid()
      modifies `whitelist, `lastCacheUpdate
      ensures Valid() && ok == records.Ok?
      ensures ok ==> whitelist == (if records.value == [] then [ANY] else records.value) && lastCacheUpdate == now
      ensures !ok ==> whitelist == old(whitelist) && lastCacheUpdate == old(lastCacheUpdate)
    {
      if records.Err? {
        return false;
      }
      if |records.value| == 0 {
        whitelist := [ANY];
      } else {
        whitelist := records.value;
      }
      lastCacheUpdate := now;
      return true;
    }

    method Initialize(records: Result<seq<string>, string>, now: int)
      requires Valid()
      modifies this
      ensures Valid()
      ensures old(initialized) ==> unchanged(this)
      ensures !old(initialized) ==> initialized == records.Ok?
      ensures !old(initialized) && (records.Err? || records.value == []) ==> whitelist == [ANY]
      ensures !old(initialized) && records.Ok? && records.value != [] ==> whitelist == records.value
      ensures !old(initialized) ==> lastCacheUpdate == if records.Ok? then now else old(lastCacheUpdate)
    {
      if initialized {
        return;
      }
      var ok := LoadFromDatabase(records, now);
      if ok {
        initialized := true;
      } else {
        whitelist := [ANY];
      }
    }

    // A stale list is reloaded; a failed reload keeps serving the old one. With a readable
    // database the list returned is never older than the expiry.
    method GetIpWhitelist(records: Result<seq<string>, string>, now: int) returns (entries: seq<string>)
      requires Valid()
      modifies `whitelist, `lastCacheUpdate
      ensures Valid() && entries == whitelist
      ensures old(now - lastCacheUpdate) <= CACHE_EXPIRY ==> unchanged(this)
      ensures records.Err? ==> unchanged(this)
      ensures records.Ok? && old(now - lastCacheUpdate) > CACHE_EXPIRY ==>
                whitelist == (if records.value == [] then [ANY] else records.value) && lastCacheUpdate == now
    {
      if now - lastCacheUpdate > CACHE_EXPIRY {
        var _ := LoadFromDatabase(records, now);
      }
      return whitelist;
    }

    method ReloadFromDatabase(records: Result<seq<string>, string>, now: int) returns (entries: Option<seq<string>>)
      requires Valid()
      modifies `whitelist, `lastCacheUpdate
      ensures Valid() && entries.Some? == records.Ok?
      ensures entries.Some? ==> entries.value == whitelist == (if records.value == [] then [ANY] else records.value)
      ensures entries.None? ==> unchanged(this)
    {
      var ok := LoadFromDatabase(records, now);
      return if ok then Some(whitelist) else None;
    }

    // isIpAllowed: some entry of the list in force matches the client.
    method IsIpAllowed(clientIp: string, records: Result<seq<string>, string>, now: int) returns (allowed: bool)
      requires Valid()
      modifies `whitelist, `lastCacheUpdate
      ensures Valid()
      ensures allowed <==> Allowed(clientIp, whitelist)
      ensures whitelist ==
                if records.Err? || old(now - lastCacheUpdate) <= CACHE_EXPIRY then old(whitelist)
                else if records.value == [] then [ANY] else records.value
    {
      var entries := GetIpWhitelist(records, now);
      if ANY in entries {
        AnyMatches(clientIp);
        return true;
      }
      for i := 0 to |entries|
        invariant entries == whitelist
        invariant forall k :: 0 <= k < i ==> !Matches(clientIp, entries[k])
      {
        var matched := IsIpMatch(clientIp, entries[i]);
        if matched {
          return true;
        }
      }
      return false;
    }

    // The filter is reported enabled only if some client can be turned away by an entry test.
    method GetStatus() returns (entries: seq<string>, isEnabled: bool)
      requires Valid()
      ensures entries == whitelist && (!isEnabled <==> ANY in whitelist)
      ensures !isEnabled ==> forall ip :: Allowed(ip, whitelist)
    {
      entries, isEnabled := whitelist, ANY !in whitelist;
      if !isEnabled {
        forall ip: string
          ensures Allowed(ip, whitelist)
        {
          AnyMatches(ip);
        }
      }
    }
  }

  // A mapped client is judged by the IPv4 address it carries, and the loopback one by 127.0.0.1.
  lemma MappedClientAllowed(address: string, entries: seq<string>)
    requires Canonical(address)
    ensures Allowed("::ffff:" + address, entries) <==> Allowed(address, entries)
    ensures Allowed("::1", entries) <==> Allowed("127.0.0.1", entries)
  {
    hide Matches, Canonical;
    forall k | 0 <= k < |entries|
      ensures Matches("::ffff:" + address, entries[k]) <==> Matches(address, entries[k])
      ensures Matches("::1", entries[k]) <==> Matches("127.0.0.1", entries[k])
    {
      MappedClientMatches(address, entries[k]);
      LoopbackMatches(entries[k]);
    }
  }

  // No address that does not denote a number gets in through a network of positive length.
  lemma MalformedNeverInNetwork(ip: string, network: string, b: nat)
    requires '/' !in network && 1 <= b <= 32 && NumberOf(Normalize(ip)).None?
    ensures !Matches(ip, Cidr(network, b))
  {
    CidrMatches(ip, network, b);
  }

  // Widening an entry never locks anyone out.
  lemma WideningKeepsAccess(ip: string, entries: seq<string>, k: nat, network: string, b: nat, w: nat)
    requires k < |entries| && entries[k] == Cidr(network, b) && '/' !in network && w <= b <= 32
    requires Allowed(ip, entries)
    ensures Allowed(ip, entries[k := Cidr(network, w)])
  {
    var wider := entries[k := Cidr(network, w)];
    var j :| 0 <= j < |entries| && Matches(ip, entries[j]);
    if j == k {
      WiderMatches(ip, network, b, w);
    }
    assert Matches(ip, wider[j]);
  }
}
