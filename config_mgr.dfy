/**
 The in-memory registry of the ngrok server (`ConfigMgr`), the per-account
 record it hands out (`UserInfo`) and the store adapter (`Db`). Every
 method is proved against the functions of module Registry through the
 abstract value `ConfigMgr.View()`.
 */
module ConfigManager {
  import opened Types
  import opened Registry
  import opened Store
  import opened Bootstrap

  /** An account as the registry holds it: its config and its traffic counters. */
  class UserInfo {
    var uc: UserConfig
    var transPerDay: int64
    var transAll: int64

    constructor (uc: UserConfig)
      ensures this.uc == uc && transPerDay == 0 && transAll == 0
    {
      this.uc := uc;
      transPerDay, transAll := 0, 0;
    }

    function Snapshot(): Account
      reads this
    {
      Account(uc, transPerDay, transAll)
    }

    /** Whether `name` is one of this account's subdomains. */
    method CheckDns(name: string) returns (found: bool)
      ensures found <==> name in uc.dns
    {
      for i := 0 to |uc.dns|
        invariant forall j :: 0 <= j < i ==> uc.dns[j] != name
      {
        if uc.dns[i] == name {
          return true;
        }
      }
      return false;
    }
  }

  /** The accounts a map of `UserInfo` references currently holds. */
  ghost function Snapshots(m: map<string, UserInfo>): map<string, Account>
    reads m.Values
  {
    map id | id in m :: m[id].Snapshot()
  }

  /** The owner ids a subdomain index currently points to. */
  ghost function Owners(m: map<string, UserInfo>): map<string, string>
    reads m.Values
  {
    map d | d in m :: m[d].uc.authId
  }

  lemma OwnersAdd(m: map<string, UserInfo>, names: seq<string>, ui: UserInfo)
    ensures Owners(m + map d | d in names :: ui) == Owners(m) + map d | d in names :: ui.uc.authId
  {
  }

  twostate lemma ObjectsUnchanged(m: map<string, UserInfo>)
    requires forall ui :: ui in m.Values ==> unchanged(ui)
    ensures Snapshots(m) == old(Snapshots(m)) && Owners(m) == old(Owners(m))
    ensures forall k :: k in m ==> m[k].uc == old(m[k].uc)
  {
    forall k | k in m
      ensures m[k].uc == old(m[k].uc)
    {
      assert m[k] in m.Values;
    }
  }

  /** Files `ui` under every name of `names`, one entry at a time. */
  method FileUnder(m: map<string, UserInfo>, names: seq<string>, ui: UserInfo) returns (m': map<string, UserInfo>)
    ensures m' == m + map d | d in names :: ui
  {
    m' := m;
    for i := 0 to |names|
      invariant m' == m + map d | d in names[..i] :: ui
    {
      assert names[..i + 1] == names[..i] + [names[i]];
      m' := m'[names[i] := ui];
    }
    assert names[..|names|] == names;
  }

  lemma SnapshotsAdd(m: map<string, UserInfo>, id: string, ui: UserInfo)
    ensures Snapshots(m[id := ui]) == Snapshots(m)[id := ui.Snapshot()]
  {
  }

  /** The registry: accounts by client id and by subdomain, and the store behind them. */
  class ConfigMgr {
    const db: Db
    var users: map<string, UserInfo>
    var dns: map<string, UserInfo>

    ghost function View(): State
      reads this, users.Values, dns.Values
    {
      State(Snapshots(users), Owners(dns))
    }

    /**
     Each account is filed under its own id, each subdomain entry is the very
     object filed under its owner's id, and the abstract registry is well formed.
     */
    ghost predicate Valid()
      reads this, users.Values, dns.Values
    {
      && (forall id :: id in users ==> users[id].uc.authId == id)
      && (forall d :: d in dns ==> dns[d].uc.authId in users && users[dns[d].uc.authId] == dns[d])
      && WellFormed(View())
    }

    /** `NewConfigMgr`: an empty registry over a store holding `disk`. */
    constructor (disk: Disk)
      ensures Valid() && fresh(db) && db.disk == disk
      ensures users == map[] && dns == map[] && View() == Empty
    {
      db := new Db(disk);
      users, dns := map[], map[];
    }

    /**
     `AddUserConfig`: rejects a known id, then any subdomain already owned,
     before it writes anything; on success files one new account under the
     id and under every subdomain. Does not save.
     */
    method AddUserConfig(uc: UserConfig) returns (err: Outcome)
      requires Valid()
      modifies this
      ensures Valid()
      ensures err == AddCheck(old(View()), uc) && View() == Add(old(View()), uc)
      ensures err != Pass ==> users == old(users) && dns == old(dns)
      ensures err == Pass ==>
        && uc.authId in users && fresh(users[uc.authId])
        && users == old(users)[uc.authId := users[uc.authId]]
        && dns == old(dns) + map d | d in uc.dns :: users[uc.authId]
    {
      if uc.authId in users {
        return Fail(Exists);
      }
      for i := 0 to |uc.dns|
        invariant forall j :: 0 <= j < i ==> uc.dns[j] !in dns
      {
        if uc.dns[i] in dns {
          assert uc.dns[i] in View().dns;
          return Fail(DnsExists);
        }
      }
      Insert(uc);
      return Pass;
    }

    /** The writing half of `AddUserConfig`, once both checks have passed. */
    method Insert(uc: UserConfig)
      requires Valid() && AddCheck(View(), uc) == Pass
      modifies this
      ensures Valid() && View() == Add(old(View()), uc)
      ensures uc.authId in users && fresh(users[uc.authId])
      ensures users == old(users)[uc.authId := users[uc.authId]]
      ensures dns == old(dns) + map d | d in uc.dns :: users[uc.authId]
    {
      var ui := new UserInfo(uc);
      users := users[uc.authId := ui];
      dns := FileUnder(dns, uc.dns, ui);
      ObjectsUnchanged(old(users));
      ObjectsUnchanged(old(dns));
      InsertedView(old(users), old(dns), uc, ui);
      InsertedLinks(old(users), old(dns), uc, ui);
      AddPreservesWellFormed(old(View()), uc);
    }

    /** Filing a fresh account for `uc` files a zero-counter account under its id and subdomains in the view. */
    lemma InsertedView(u0: map<string, UserInfo>, d0: map<string, UserInfo>, uc: UserConfig, ui: UserInfo)
      requires ui.Snapshot() == Account(uc, 0, 0)
      requires users == u0[uc.authId := ui] && dns == d0 + map d | d in uc.dns :: ui
      ensures View() == State(Snapshots(u0)[uc.authId := Account(uc, 0, 0)], Owners(d0) + map d | d in uc.dns :: uc.authId)
    {
      OwnersAdd(d0, uc.dns, ui);
      SnapshotsAdd(u0, uc.authId, ui);
    }

    /** Filing a fresh account for `uc` keeps its id and subdomain entries consistent. */
    lemma InsertedLinks(u0: map<string, UserInfo>, d0: map<string, UserInfo>, uc: UserConfig, ui: UserInfo)
      requires forall id :: id in u0 ==> u0[id].uc.authId == id
      requires forall d :: d in d0 ==> d0[d].uc.authId in u0 && u0[d0[d].uc.authId] == d0[d]
      requires uc.authId !in u0 && ui.uc == uc
      requires users == u0[uc.authId := ui] && dns == d0 + map d | d in uc.dns :: ui
      ensures forall id :: id in users ==> users[id].uc.authId == id
      ensures forall d :: d in dns ==> dns[d].uc.authId in users && users[dns[d].uc.authId] == dns[d]
    {
      forall d | d in dns
        ensures dns[d].uc.authId in users && users[dns[d].uc.authId] == dns[d]
      {
        if d !in uc.dns {
          assert d in d0 && dns[d] == d0[d];
        }
      }
    }

    /**
     `bindUserInner`: sets the empty secret of a known account, once.
     Fails with "not exists" or "already bind" and then changes nothing.
     */
    method BindUserInner(id: string, user: string) returns (r: Result<UserConfig>)
      requires Valid()
      modifies users.Values
      ensures Valid() && users == old(users) && dns == old(dns)
      ensures r == BindResult(old(View()), id, user)
      ensures View() == Bind(old(View()), id, user)
    {
      if id !in users {
        return Err(NotExists);
      }
      var ui := users[id];
      if ui.uc.userId != "" {
        return Err(AlreadyBind);
      }
      ghost var v := View();
      ui.uc := ui.uc.(userId := user);
      assert forall x :: x in users && x != id ==> users[x] != ui;
      assert View() == Bind(v, id, user);
      BindPreservesWellFormed(v, id, user);
      return Ok(ui.uc);
    }

    /** `BindUser`: binds, then saves the bound config; Save's result is not consulted. */
    method BindUser(id: string, user: string) returns (err: Outcome)
      requires Valid()
      modifies users.Values, db
      ensures Valid() && users == old(users) && dns == old(dns)
      ensures View() == Bind(old(View()), id, user)
      ensures match BindResult(old(View()), id, user)
        case Ok(uc) => err == Pass && db.disk == old(db.disk)[KeyFor(id) := Encoded(uc)]
        case Err(e) => err == Fail(e) && db.disk == old(db.disk)
    {
      var r := BindUserInner(id, user);
      match r
      case Ok(uc) =>
        var _ := db.Save(uc);
        err := Pass;
      case Err(e) =>
        err := Fail(e);
    }

    /** `GetUserInfo`: the account filed under `id`, or null. */
    method GetUserInfo(id: string) returns (ui: UserInfo?)
      ensures ui != null <==> id in users
      ensures ui != null ==> ui == users[id] && Lookup(View(), id) == Some(ui.Snapshot())
      ensures ui == null ==> Lookup(View(), id) == None
    {
      if id in users {
        return users[id];
      }
      return null;
    }

    /** `GetByDns`: the account that owns subdomain `name`, or null. */
    method GetByDns(name: string) returns (ui: UserInfo?)
      requires Valid()
      ensures ui != null <==> name in dns
      ensures ui != null ==> ui == dns[name] && name in ui.uc.dns && LookupByDns(View(), name) == Some(ui.Snapshot())
      ensures ui == null ==> LookupByDns(View(), name) == None
    {
      if name in dns {
        assert View().dns[name] == dns[name].uc.authId;
        return dns[name];
      }
      return null;
    }

    /** `TimeoutAllDays`: the daily reset of every account's per-day counter. */
    method TimeoutAllDays()
      requires Valid()
      modifies users.Values
      ensures Valid() && users == old(users) && dns == old(dns)
      ensures View() == ResetAll(old(View()))
    {
      var rest := users.Values;
      while rest != {}
        invariant rest <= users.Values
        invariant forall v :: v in users.Values && v !in rest ==> v.transPerDay == 0
        invariant forall v :: v in users.Values ==> v.uc == old(v.uc) && v.transAll == old(v.transAll)
        decreases rest
      {
        var v :| v in rest;
        v.transPerDay := 0;
        rest := rest - {v};
      }
      ResetDone();
    }

    /** Once every account's day counter is zero and nothing else moved, the view is reset. */
    twostate lemma ResetDone()
      requires old(Valid()) && unchanged(this)
      requires forall v :: v in users.Values ==> v.transPerDay == 0 && v.uc == old(v.uc) && v.transAll == old(v.transAll)
      ensures Valid() && View() == ResetAll(old(View()))
    {
      assert forall d :: d in dns ==> dns[d] in users.Values;
      assert View() == ResetAll(old(View()));
      ResetPreservesWellFormed(old(View()));
    }
  }

  /** The store adapter: `disk` is what the key-value store holds. */
  class Db {
    var disk: Disk

    constructor (disk: Disk)
      ensures this.disk == disk
    {
      this.disk := disk;
    }

    /** `Save`: writes the config under "ngrok:" + its id and always reports success. */
    method Save(uc: UserConfig) returns (err: Outcome)
      modifies this
      ensures err == Pass && disk == old(disk)[KeyFor(uc.authId) := Encoded(uc)]
    {
      disk := disk[KeyFor(uc.authId) := Encoded(uc)];
      return Pass;
    }

    /**
     `LoadAll`: visits every key under the prefix once, in the store's own
     order `order`, and hands each record that reads back to
     `AddUserConfig`, going on past the ones it rejects.
     */
    method LoadAll(mgr: ConfigMgr) returns (err: Outcome, ghost order: seq<string>)
      requires mgr.Valid()
      modifies mgr
      ensures mgr.Valid() && err == Pass
      ensures Enumerates(order, ScannedKeys(disk))
      ensures mgr.View() == Replay(old(mgr.View()), Configs(disk, order))
    {
      var keys := ScannedKeys(disk);
      var rest := keys;
      order := [];
      while rest != {}
        invariant mgr.Valid()
        invariant rest <= keys
        invariant forall k :: k in order <==> k in keys && k !in rest
        invariant forall i, j :: 0 <= i < j < |order| ==> order[i] != order[j]
        invariant mgr.View() == Replay(old(mgr.View()), Configs(disk, order))
        decreases rest
      {
        var k :| k in rest;
        ghost var before := Configs(disk, order);
        assert (order + [k])[..|order|] == order;
        var loaded := LoadFrom(disk, k);
        if loaded.err == None {
          var _ := mgr.AddUserConfig(loaded.uc.value);
          assert Configs(disk, order + [k]) == before + [loaded.uc.value];
          assert (before + [loaded.uc.value])[..|before|] == before;
        } else {
          assert Configs(disk, order + [k]) == before;
        }
        order := order + [k];
        rest := rest - {k};
      }
      err := Pass;
    }
  }

  /**
   `CheckForLogin`, in its order: unknown id, then a bound secret that
   differs, give null; an unbound account is bound to the password (and
   saved) and admitted with no quota check; a bound account is refused
   once its per-day counter exceeds the quota.
   */
  method CheckForLogin(mgr: ConfigMgr, clientId: string, password: string) returns (usr: UserInfo?)
    requires mgr.Valid()
    modifies mgr.users.Values, mgr.db
    ensures mgr.Valid() && mgr.users == old(mgr.users) && mgr.dns == old(mgr.dns)
    ensures usr != null <==> Decide(old(mgr.View()), clientId, password).Admits()
    ensures usr != null ==> usr == mgr.users[clientId]
    ensures mgr.View() == Login(old(mgr.View()), clientId, password)
    ensures mgr.db.disk ==
      if Decide(old(mgr.View()), clientId, password) == AdmittedOnBind
      then old(mgr.db.disk)[KeyFor(clientId) := Encoded(mgr.users[clientId].uc)]
      else old(mgr.db.disk)
  {
    usr := mgr.GetUserInfo(clientId);
    if usr == null {
      return null;
    }
    if usr.uc.userId != "" && usr.uc.userId != password {
      return null;
    }
    if usr.uc.userId == "" {
      var _ := mgr.BindUser(clientId, password);
    } else {
      var day := usr.transPerDay;
      if day > QuotaLimit {
        return null;
      }
    }
  }

  /**
   Start-up (`NewConfigMgr` then `LoadAll`): a fresh registry filled from
   the store. From a consistent store every record comes back by id and by
   each subdomain, whatever order the scan takes.
   */
  method StartRegistry(disk: Disk) returns (mgr: ConfigMgr, ghost order: seq<string>)
    ensures mgr.Valid() && mgr.db.disk == disk
    ensures Enumerates(order, ScannedKeys(disk))
    ensures mgr.View() == Replay(Empty, Configs(disk, order))
    ensures Consistent(disk) ==> forall k :: k in ScannedKeys(disk) && disk[k].Encoded? ==>
      && Lookup(mgr.View(), disk[k].config.authId) == Some(Account(disk[k].config, 0, 0))
      && (forall d :: d in disk[k].config.dns ==>
            LookupByDns(mgr.View(), d) == Some(Account(disk[k].config, 0, 0)))
  {
    mgr := new ConfigMgr(disk);
    var err;
    err, order := mgr.db.LoadAll(mgr);
    if Consistent(disk) {
      LoadRestores(disk, order);
    }
  }
}
