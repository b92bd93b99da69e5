/**
 The abstract state of the user registry and the meaning of every operation
 on it. `ConfigManager.ConfigMgr` is proved to implement these functions;
 the lemmas here state what the registry promises.
 */
module Registry {
  import opened Types

  /** Logins are refused once the per-day counter exceeds one gibibyte. */
  const QuotaLimit: int64 := 1024 * 1024 * 1024

  /** What the registry keeps per account: its config and its two counters. */
  datatype Account = Account(uc: UserConfig, transPerDay: int64, transAll: int64)

  /** The two indexes: by client id, and by subdomain (to the owner's id). */
  datatype State = State(users: map<string, Account>, dns: map<string, string>)

  const Empty: State := State(map[], map[])

  /**
   The registry invariant: every account is filed under its own id, every
   subdomain points to a registered owner that lists it, and every listed
   subdomain of every account points back to that account.
   */
  ghost predicate WellFormed(r: State) {
    && (forall id :: id in r.users ==> r.users[id].uc.authId == id)
    && (forall d :: d in r.dns ==> r.dns[d] in r.users && d in r.users[r.dns[d]].uc.dns)
    && (forall id, d :: id in r.users && d in r.users[id].uc.dns ==> d in r.dns && r.dns[d] == id)
  }

  function Lookup(r: State, id: string): Option<Account> {
    if id in r.users then Some(r.users[id]) else None
  }

  function LookupByDns(r: State, name: string): Option<Account> {
    if name in r.dns && r.dns[name] in r.users then Some(r.users[r.dns[name]]) else None
  }

  lemma LookupByDnsOwner(r: State, name: string)
    requires WellFormed(r)
    ensures LookupByDns(r, name).Some? <==> name in r.dns
    ensures LookupByDns(r, name).Some? ==> name in LookupByDns(r, name).value.uc.dns
  {
  }

  // ---------------------------------------------------------------- adding

  /** True when no subdomain of `uc` is already owned. */
  predicate DnsFree(r: State, uc: UserConfig) {
    forall d :: d in uc.dns ==> d !in r.dns
  }

  /** The verdict of `AddUserConfig`: the id check first, then the subdomain check. */
  function AddCheck(r: State, uc: UserConfig): Outcome {
    if uc.authId in r.users then Fail(Exists)
    else if !DnsFree(r, uc) then Fail(DnsExists)
    else Pass
  }

  /** The registry after `AddUserConfig`: all of the insert, or nothing. */
  function Add(r: State, uc: UserConfig): State {
    if AddCheck(r, uc) != Pass then r
    else State(r.users[uc.authId := Account(uc, 0, 0)],
               r.dns + map d | d in uc.dns :: uc.authId)
  }

  lemma AddDuplicateId(r: State, uc: UserConfig)
    requires uc.authId in r.users
    ensures AddCheck(r, uc) == Fail(Exists)
    ensures Add(r, uc) == r
  {
  }

  lemma AddTakenDns(r: State, uc: UserConfig, name: string)
    requires uc.authId !in r.users
    requires name in uc.dns && name in r.dns
    ensures AddCheck(r, uc) == Fail(DnsExists)
    ensures Add(r, uc) == r
  {
  }

  lemma AddAdmitsFresh(r: State, uc: UserConfig)
    ensures AddCheck(r, uc) == Pass <==> uc.authId !in r.users && DnsFree(r, uc)
  {
  }

  /**
   A successful add files the new account under its id and under each of
   its subdomains, starts its counters at zero, and leaves every other
   lookup as it was.
   */
  lemma AddSuccess(r: State, uc: UserConfig)
    requires WellFormed(r)
    requires AddCheck(r, uc) == Pass
    ensures Lookup(Add(r, uc), uc.authId) == Some(Account(uc, 0, 0))
    ensures forall d :: d in uc.dns ==> LookupByDns(Add(r, uc), d) == Some(Account(uc, 0, 0))
    ensures forall id :: id != uc.authId ==> Lookup(Add(r, uc), id) == Lookup(r, id)
    ensures forall d :: d !in uc.dns ==> LookupByDns(Add(r, uc), d) == LookupByDns(r, d)
  {
  }

  lemma AddPreservesWellFormed(r: State, uc: UserConfig)
    requires WellFormed(r)
    ensures WellFormed(Add(r, uc))
  {
  }

  // --------------------------------------------------------------- binding

  /** The verdict and result of `bindUserInner`: the config with its new secret. */
  function BindResult(r: State, id: string, user: string): Result<UserConfig> {
    if id !in r.users then Err(NotExists)
    else if r.users[id].uc.userId != "" then Err(AlreadyBind)
    else Ok(r.users[id].uc.(userId := user))
  }

  /** The registry after `bindUserInner`. */
  function Bind(r: State, id: string, user: string): State {
    match BindResult(r, id, user)
    case Err(_) => r
    case Ok(uc) => r.(users := r.users[id := r.users[id].(uc := uc)])
  }

  lemma BindUnknown(r: State, id: string, user: string)
    requires id !in r.users
    ensures BindResult(r, id, user) == Err(NotExists) && Bind(r, id, user) == r
  {
  }

  lemma BindAlreadyBound(r: State, id: string, user: string)
    requires id in r.users && r.users[id].uc.userId != ""
    ensures BindResult(r, id, user) == Err(AlreadyBind) && Bind(r, id, user) == r
  {
  }

  /** Binding an unbound account sets its secret and changes nothing else. */
  lemma BindUnbound(r: State, id: string, user: string)
    requires id in r.users && r.users[id].uc.userId == ""
    ensures BindResult(r, id, user).Ok?
    ensures var a := r.users[id];
      Bind(r, id, user) == State(r.users[id := Account(a.uc.(userId := user), a.transPerDay, a.transAll)], r.dns)
  {
  }

  lemma BindPreservesWellFormed(r: State, id: string, user: string)
    requires WellFormed(r)
    ensures WellFormed(Bind(r, id, user))
  {
  }

  /** A bound secret is never overwritten: a second bind attempt always fails. */
  lemma BindOnce(r: State, id: string, s: string, s': string)
    requires id in r.users && r.users[id].uc.userId == "" && s != ""
    ensures BindResult(Bind(r, id, s), id, s') == Err(AlreadyBind)
    ensures Bind(Bind(r, id, s), id, s') == Bind(r, id, s)
    ensures Bind(r, id, s).users[id].uc.userId == s
  {
  }

  // ----------------------------------------------------------------- reset

  /** The registry after `TimeoutAllDays`. */
  function ResetAll(r: State): State {
    State(map id | id in r.users :: r.users[id].(transPerDay := 0), r.dns)
  }

  lemma ResetZeroesDayCounters(r: State)
    ensures ResetAll(r).users.Keys == r.users.Keys && ResetAll(r).dns == r.dns
    ensures forall id :: id in r.users ==>
      && ResetAll(r).users[id].transPerDay == 0
      && ResetAll(r).users[id].transAll == r.users[id].transAll
      && ResetAll(r).users[id].uc == r.users[id].uc
  {
  }

  lemma ResetIdempotent(r: State)
    ensures ResetAll(ResetAll(r)) == ResetAll(r)
  {
  }

  lemma ResetPreservesWellFormed(r: State)
    requires WellFormed(r)
    ensures WellFormed(ResetAll(r))
  {
  }

  // ----------------------------------------------------------------- login

  /** The decision of `CheckForLogin`, with the reason when it returns nil. */
  datatype Admission = UnknownAccount | AuthRejected | QuotaExceeded | AdmittedOnBind | Admitted {
    predicate Admits() { this == AdmittedOnBind || this == Admitted }
  }

  function Decide(r: State, id: string, password: string): Admission {
    if id !in r.users then UnknownAccount
    else
      var a := r.users[id];
      if a.uc.userId != "" && a.uc.userId != password then AuthRejected
      else if a.uc.userId == "" then AdmittedOnBind
      else if a.transPerDay > QuotaLimit then QuotaExceeded
      else Admitted
  }

  /** The registry after `CheckForLogin`: only a first-use login changes it. */
  function Login(r: State, id: string, password: string): State {
    if Decide(r, id, password) == AdmittedOnBind then Bind(r, id, password) else r
  }

  /** The decision table of `CheckForLogin`, row by row, in its order. */
  lemma LoginDecisionTable(r: State, id: string, pw: string)
    ensures Decide(r, id, pw) == UnknownAccount <==> id !in r.users
    ensures Decide(r, id, pw) == AuthRejected <==>
      id in r.users && r.users[id].uc.userId != "" && r.users[id].uc.userId != pw
    ensures Decide(r, id, pw) == AdmittedOnBind <==> id in r.users && r.users[id].uc.userId == ""
    ensures Decide(r, id, pw) == QuotaExceeded <==>
      id in r.users && r.users[id].uc.userId != "" && r.users[id].uc.userId == pw
      && r.users[id].transPerDay > QuotaLimit
    ensures Decide(r, id, pw) == Admitted <==>
      id in r.users && r.users[id].uc.userId != "" && r.users[id].uc.userId == pw
      && r.users[id].transPerDay <= QuotaLimit
  {
  }

  /** A refused login leaves the registry as it was. */
  lemma LoginRejectedUnchanged(r: State, id: string, pw: string)
    requires !Decide(r, id, pw).Admits()
    ensures Login(r, id, pw) == r
  {
  }

  /**
   A first-use login binds the password as the secret and admits without a
   quota check, however large the per-day counter is.
   */
  lemma LoginFirstUse(r: State, id: string, pw: string)
    requires id in r.users && r.users[id].uc.userId == ""
    ensures Decide(r, id, pw) == AdmittedOnBind
    ensures Login(r, id, pw) == Bind(r, id, pw)
    ensures Login(r, id, pw).users[id].uc.userId == pw
    ensures Login(r, id, pw).users[id].transPerDay == r.users[id].transPerDay
  {
  }

  /**
   A login with an empty password on an unbound account is admitted, yet
   "binds" the empty string, so the account stays unbound and the next
   login binds again.
   */
  lemma LoginEmptyPasswordStaysUnbound(r: State, id: string, pw: string)
    requires id in r.users && r.users[id].uc.userId == ""
    ensures Decide(r, id, "") == AdmittedOnBind
    ensures Login(r, id, "") == r
    ensures Decide(Login(r, id, ""), id, pw) == AdmittedOnBind
  {
  }

  /**
   Trust on first use: after the first login with a non-empty secret `s`,
   a login with any other secret is refused and the secret stays `s`, while
   a login with `s` is admitted unless the quota is exceeded.
   */
  lemma {:induction false} LoginBindsOnce(r: State, id: string, s: string, s': string)
    requires id in r.users && r.users[id].uc.userId == "" && s != ""
    ensures var r1 := Login(r, id, s);
      && r1.users[id].uc.userId == s
      && (s' != s ==> Decide(r1, id, s') == AuthRejected && Login(r1, id, s') == r1)
      && (Decide(r1, id, s) == Admitted <==> r.users[id].transPerDay <= QuotaLimit)
  {
    LoginFirstUse(r, id, s);
  }

  /** The quota gate refuses a bound account even when the secret matches. */
  lemma LoginOverQuota(r: State, id: string)
    requires id in r.users
    requires r.users[id].uc.userId != "" && r.users[id].transPerDay > QuotaLimit
    ensures Decide(r, id, r.users[id].uc.userId) == QuotaExceeded
  {
  }

  /** After the daily reset a bound account with the right secret is admitted again. */
  lemma LoginAfterReset(r: State, id: string)
    requires id in r.users && r.users[id].uc.userId != ""
    ensures Decide(ResetAll(r), id, r.users[id].uc.userId) == Admitted
  {
  }

  lemma LoginPreservesWellFormed(r: State, id: string, pw: string)
    requires WellFormed(r)
    ensures WellFormed(Login(r, id, pw))
  {
    BindPreservesWellFormed(r, id, pw);
  }

  /** No operation changes a secret that is already bound, nor a lifetime counter. */
  lemma BoundSecretStable(r: State, uc: UserConfig, id: string, user: string, x: string)
    requires x in r.users
    ensures var us := [Add(r, uc), Bind(r, id, user), ResetAll(r), Login(r, id, user)];
      forall k :: 0 <= k < |us| ==>
        && x in us[k].users
        && us[k].users[x].transAll == r.users[x].transAll
        && (r.users[x].uc.userId != "" ==> us[k].users[x].uc.userId == r.users[x].uc.userId)
  {
  }

  // ---------------------------------------------------------------- replay

  /** Feeding configs to `AddUserConfig` one after another, ignoring rejections. */
  function Replay(r: State, cs: seq<UserConfig>): State
    decreases |cs|
  {
    if cs == [] then r else Add(Replay(r, cs[..|cs| - 1]), cs[|cs| - 1])
  }

  /** A rejected record is skipped and replay goes on with the next one. */
  lemma ReplaySkipsRejected(r: State, cs: seq<UserConfig>, c: UserConfig)
    requires AddCheck(Replay(r, cs), c) != Pass
    ensures Replay(r, cs + [c]) == Replay(r, cs)
  {
    assert (cs + [c])[..|cs|] == cs;
  }

  lemma {:induction false} ReplayPreservesWellFormed(r: State, cs: seq<UserConfig>)
    requires WellFormed(r)
    ensures WellFormed(Replay(r, cs))
    decreases |cs|
  {
    if cs != [] {
      ReplayPreservesWellFormed(r, cs[..|cs| - 1]);
      AddPreservesWellFormed(Replay(r, cs[..|cs| - 1]), cs[|cs| - 1]);
    }
  }

  /** Two records that claim neither the same id nor a common subdomain. */
  ghost predicate Disjoint(a: UserConfig, b: UserConfig) {
    a.authId != b.authId && forall d :: d in a.dns ==> d !in b.dns
  }

  /** The records clash neither with each other nor with what `r` holds. */
  ghost predicate NonConflicting(r: State, cs: seq<UserConfig>) {
    && (forall i :: 0 <= i < |cs| ==> cs[i].authId !in r.users && DnsFree(r, cs[i]))
    && (forall i, j :: 0 <= i < j < |cs| ==> Disjoint(cs[i], cs[j]))
  }

  ghost function Ids(cs: seq<UserConfig>): set<string> {
    set i | 0 <= i < |cs| :: cs[i].authId
  }

  ghost function Names(cs: seq<UserConfig>): set<string> {
    set i, d | 0 <= i < |cs| && d in cs[i].dns :: d
  }

  ghost function NameSet(c: UserConfig): set<string> {
    set d | d in c.dns
  }

  /** What a successful add does to each index, entry by entry. */
  lemma AddFreshEntries(r: State, c: UserConfig)
    requires AddCheck(r, c) == Pass
    ensures var r' := Add(r, c);
      && r'.users.Keys == r.users.Keys + {c.authId}
      && r'.dns.Keys == r.dns.Keys + NameSet(c)
      && (forall id :: id in r.users ==> r'.users[id] == r.users[id])
      && (forall d :: d in r.dns ==> r'.dns[d] == r.dns[d])
      && r'.users[c.authId] == Account(c, 0, 0)
      && (forall d :: d in c.dns ==> r'.dns[d] == c.authId)
  {
  }

  lemma IdsNamesSnoc(cs: seq<UserConfig>)
    requires cs != []
    ensures Ids(cs) == Ids(cs[..|cs| - 1]) + {cs[|cs| - 1].authId}
    ensures Names(cs) == Names(cs[..|cs| - 1]) + NameSet(cs[|cs| - 1])
  {
    var n := |cs| - 1;
    assert forall i :: 0 <= i < n ==> cs[..n][i] == cs[i];
  }

  lemma NonConflictingSnoc(r: State, cs: seq<UserConfig>)
    requires cs != [] && NonConflicting(r, cs)
    ensures NonConflicting(r, cs[..|cs| - 1])
    ensures forall i :: 0 <= i < |cs| - 1 ==> Disjoint(cs[i], cs[|cs| - 1])
  {
    var n := |cs| - 1;
    assert forall i :: 0 <= i < n ==> cs[..n][i] == cs[i];
  }

  /**
   `r'` holds what `r` held, plus every record of `cs` with zero counters
   under its id and each of its subdomains, and nothing more.
   */
  ghost predicate AdmitsAll(r: State, cs: seq<UserConfig>, r': State) {
    && r'.users.Keys == r.users.Keys + Ids(cs)
    && r'.dns.Keys == r.dns.Keys + Names(cs)
    && (forall id :: id in r.users ==> r'.users[id] == r.users[id])
    && (forall d :: d in r.dns ==> r'.dns[d] == r.dns[d])
    && (forall i :: 0 <= i < |cs| ==> r'.users[cs[i].authId] == Account(cs[i], 0, 0))
    && (forall i, d :: 0 <= i < |cs| && d in cs[i].dns ==> r'.dns[d] == cs[i].authId)
  }

  /** The next record of a clash-free sequence fits into what the earlier ones left. */
  lemma SnocFits(r: State, cs: seq<UserConfig>, r1: State)
    requires cs != [] && NonConflicting(r, cs)
    requires AdmitsAll(r, cs[..|cs| - 1], r1)
    ensures AddCheck(r1, cs[|cs| - 1]) == Pass
  {
    var n := |cs| - 1;
    var init, last := cs[..n], cs[n];
    NonConflictingSnoc(r, cs);
    assert last.authId !in Ids(init) by {
      forall i | 0 <= i < n ensures init[i].authId != last.authId {
        assert Disjoint(cs[i], last);
      }
    }
    forall d | d in last.dns ensures d !in r1.dns {
      assert d !in Names(init) by {
        forall i | 0 <= i < n ensures d !in init[i].dns {
          assert Disjoint(cs[i], last);
        }
      }
    }
  }

  /** The entries that were there before the last record stay as they were. */
  lemma SnocKeepsEarlier(r: State, cs: seq<UserConfig>, r1: State)
    requires cs != [] && NonConflicting(r, cs)
    requires AdmitsAll(r, cs[..|cs| - 1], r1)
    requires AddCheck(r1, cs[|cs| - 1]) == Pass
    ensures var r' := Add(r1, cs[|cs| - 1]);
      && r'.users.Keys == r.users.Keys + Ids(cs)
      && r'.dns.Keys == r.dns.Keys + Names(cs)
      && (forall id :: id in r.users ==> r'.users[id] == r.users[id])
      && (forall d :: d in r.dns ==> r'.dns[d] == r.dns[d])
  {
    IdsNamesSnoc(cs);
    AddFreshEntries(r1, cs[|cs| - 1]);
  }

  /** Every record so far, the last one included, is filed under its id and subdomains. */
  lemma SnocFilesAll(r: State, cs: seq<UserConfig>, r1: State)
    requires cs != [] && NonConflicting(r, cs)
    requires AdmitsAll(r, cs[..|cs| - 1], r1)
    requires AddCheck(r1, cs[|cs| - 1]) == Pass
    ensures var r' := Add(r1, cs[|cs| - 1]);
      && (forall i :: 0 <= i < |cs| ==> r'.users[cs[i].authId] == Account(cs[i], 0, 0))
      && (forall i, d :: 0 <= i < |cs| && d in cs[i].dns ==> r'.dns[d] == cs[i].authId)
  {
    var n := |cs| - 1;
    var init, last := cs[..n], cs[n];
    NonConflictingSnoc(r, cs);
    AddFreshEntries(r1, last);
    var r' := Add(r1, last);
    forall i | 0 <= i < |cs|
      ensures r'.users[cs[i].authId] == Account(cs[i], 0, 0)
    {
      if i < n {
        assert init[i] == cs[i];
      }
    }
    forall i, d | 0 <= i < |cs| && d in cs[i].dns
      ensures r'.dns[d] == cs[i].authId
    {
      if i < n {
        assert init[i] == cs[i];
        assert Disjoint(cs[i], last);
      }
    }
  }

  /**
   Replaying records that do not clash admits every one of them, with zero
   counters, under its id and each of its subdomains, and keeps every entry
   that was there before.
   */
  lemma {:induction false} ReplayAdmitsAll(r: State, cs: seq<UserConfig>)
    requires NonConflicting(r, cs)
    ensures AdmitsAll(r, cs, Replay(r, cs))
    decreases |cs|
  {
    if cs == [] {
      assert Ids(cs) == {} && Names(cs) == {};
    } else {
      NonConflictingSnoc(r, cs);
      ReplayAdmitsAll(r, cs[..|cs| - 1]);
      SnocFits(r, cs, Replay(r, cs[..|cs| - 1]));
      SnocKeepsEarlier(r, cs, Replay(r, cs[..|cs| - 1]));
      SnocFilesAll(r, cs, Replay(r, cs[..|cs| - 1]));
    }
  }
}
