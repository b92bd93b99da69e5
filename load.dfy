/**
 What loading the store at start-up yields: the registry that `LoadAll`
 builds by replaying the scanned records, and the round trip from saved
 configs back to lookups.
 */
module Bootstrap {
  import opened Types
  import opened Registry
  import opened Store

  /** No two configs stored under scanned keys claim the same id or a common subdomain. */
  ghost predicate Consistent(disk: Disk) {
    forall k1, k2 ::
      k1 in ScannedKeys(disk) && k2 in ScannedKeys(disk) && k1 != k2 && disk[k1].Encoded? && disk[k2].Encoded? ==>
      Disjoint(disk[k1].config, disk[k2].config)
  }

  /** `order` visits every key of `keys` exactly once. */
  ghost predicate Enumerates(order: seq<string>, keys: set<string>) {
    && (forall i, j :: 0 <= i < j < |order| ==> order[i] != order[j])
    && (forall k :: k in order <==> k in keys)
  }

  /** Records read from a consistent store, each key once, never clash. */
  lemma {:induction false} ConfigsNonConflicting(disk: Disk, order: seq<string>)
    requires Consistent(disk)
    requires forall i, j :: 0 <= i < j < |order| ==> order[i] != order[j]
    requires forall k :: k in order ==> k in ScannedKeys(disk)
    ensures NonConflicting(Empty, Configs(disk, order))
    decreases |order|
  {
    if order != [] {
      var init, k := order[..|order| - 1], order[|order| - 1];
      ConfigsNonConflicting(disk, init);
      var before, now := Configs(disk, init), Configs(disk, order);
      if LoadFrom(disk, k).uc.Some? {
        assert now == before + [disk[k].config];
        forall i, j | 0 <= i < j < |now| ensures Disjoint(now[i], now[j]) {
          if j < |before| {
            assert now[i] == before[i] && now[j] == before[j];
          } else {
            assert now[i] == before[i] && before[i] in before;
            ConfigsFrom(disk, init, before[i]);
            var k' :| k' in init && k' in disk && disk[k'] == Encoded(before[i]);
            assert k' != k;
          }
        }
      } else {
        assert now == before;
      }
    }
  }

  /** A record admitted by a replay can be looked up by its id and by each of its subdomains. */
  lemma AdmittedRetrievable(r: State, cs: seq<UserConfig>, r': State, i: nat)
    requires AdmitsAll(r, cs, r') && i < |cs|
    ensures Lookup(r', cs[i].authId) == Some(Account(cs[i], 0, 0))
    ensures forall d :: d in cs[i].dns ==> LookupByDns(r', d) == Some(Account(cs[i], 0, 0))
  {
    assert cs[i].authId in Ids(cs);
    forall d | d in cs[i].dns
      ensures LookupByDns(r', d) == Some(Account(cs[i], 0, 0))
    {
      assert d in Names(cs);
      assert r'.dns[d] == cs[i].authId;
    }
  }

  /**
   The load round trip: replaying a consistent store into an empty registry,
   in any scan order, makes every decodable record retrievable by its id and
   by each of its subdomains, unchanged and with zero counters.
   */
  lemma LoadRestores(disk: Disk, order: seq<string>)
    requires Consistent(disk)
    requires Enumerates(order, ScannedKeys(disk))
    ensures WellFormed(Replay(Empty, Configs(disk, order)))
    ensures forall k :: k in ScannedKeys(disk) && disk[k].Encoded? ==>
      && Lookup(Replay(Empty, Configs(disk, order)), disk[k].config.authId)
         == Some(Account(disk[k].config, 0, 0))
      && (forall d :: d in disk[k].config.dns ==>
            LookupByDns(Replay(Empty, Configs(disk, order)), d) == Some(Account(disk[k].config, 0, 0)))
  {
    var cs := Configs(disk, order);
    ConfigsNonConflicting(disk, order);
    ReplayAdmitsAll(Empty, cs);
    ReplayPreservesWellFormed(Empty, cs);
    forall k | k in ScannedKeys(disk) && disk[k].Encoded?
      ensures Lookup(Replay(Empty, cs), disk[k].config.authId) == Some(Account(disk[k].config, 0, 0))
      ensures forall d :: d in disk[k].config.dns ==>
        LookupByDns(Replay(Empty, cs), d) == Some(Account(disk[k].config, 0, 0))
    {
      var j :| 0 <= j < |order| && order[j] == k;
      ConfigsComplete(disk, order, j);
      var i :| 0 <= i < |cs| && cs[i] == disk[k].config;
      AdmittedRetrievable(Empty, cs, Replay(Empty, cs), i);
    }
  }
}
