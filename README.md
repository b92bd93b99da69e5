# ngrok server user registry and login admission

This project models the user-configuration component of the ngrok server
(`src/ngrok/server/config.go`). The component has these parts:

- `ConfigMgr`: an in-memory registry. It files each account (`UserInfo`: a
  `UserConfig` plus two traffic counters) under its client id and under
  every subdomain it owns.
- `Db.Save` / `Db.LoadAll`: persist configs in a key-value store under
  `"ngrok:" + authId` and load them back at start-up.
- `blockTransform`: shards store keys into directories.
- `CheckForLogin`: the login gate. It does trust-on-first-use binding of a
  secret and a per-day traffic quota check.

The model has two layers:

- Module `Registry` holds the abstract registry `State` (id → `Account`,
  subdomain → owner id). It has the invariant `WellFormed` and one pure
  function per operation: `AddCheck`/`Add`, `BindResult`/`Bind`,
  `ResetAll`, `Decide`/`Login`, and `Replay` for a sequence of adds. The
  registry's promises are proved there as lemmas.
- Module `ConfigManager` is the imperative layer:
  - class `UserInfo` has the fields `uc`, `transPerDay` and `transAll`;
  - class `ConfigMgr` has the fields `users` and `dns`, maps to `UserInfo`
    references;
  - class `Db` holds the store contents `disk`.

  Every method is proved against the abstract layer through
  `ConfigMgr.View()`, and keeps `ConfigMgr.Valid()`. That invariant says each
  subdomain entry is the very object filed under its owner's id, and the view
  is well formed.

Module `Store` models the key layout, reading one record back and the shard
transform. Module `Bootstrap` proves what loading a store yields.

Go's global `cMgr` becomes an explicit `ConfigMgr` argument. The store is a
map from key to `Blob`, which is either the encoding of a config or bytes
that do not decode. The scan order of `KeysPrefix` is a ghost out-parameter
`order` of `LoadAll`: its results hold for every order.

Two behaviours of the code are modelled as written:

- `Save` always returns nil, because `config.go:93-97` discards the write error.
- A login on an unbound account is admitted with no quota check.

The keys `LoadAll` visits, diskv's `KeysPrefix(DbPrefix, nil)`, are modelled
by `Store.ScannedKeys`: every stored key that starts with "ngrok", without
the colon.

## Model

| member | source | states |
|---|---|---|
| Registry.AddDuplicateId | src/ngrok/server/config.go:130-132 | an already registered id is refused with "exists" and the registry is unchanged |
| Registry.AddTakenDns | src/ngrok/server/config.go:134-138 | a fresh id that lists an owned subdomain is refused with "dns exists" and nothing is written |
| Registry.AddAdmitsFresh | src/ngrok/server/config.go:130-146 | an add succeeds exactly when the id is new and every subdomain is free |
| Registry.AddSuccess | src/ngrok/server/config.go:140-146 | a successful add makes the new account, with zero counters, retrievable by its id and by each of its subdomains, and leaves every other lookup as it was |
| Registry.AddPreservesWellFormed | src/ngrok/server/config.go:126-147 | adding keeps ids, subdomain owners and owners' subdomain lists consistent |
| ConfigManager.ConfigMgr.AddUserConfig | src/ngrok/server/config.go:126-147 | the error is the id check, then the subdomain check; on success one fresh `UserInfo` is filed under the id and under every subdomain, all other entries stay; on failure both maps are unchanged; the registry invariant is kept |
| ConfigManager.FileUnder | src/ngrok/server/config.go:142-144 | the loop leaves the subdomain index as before plus every listed name mapped to the new account |
| Registry.BindUnknown | src/ngrok/server/config.go:155-156 | binding an unknown id fails with "not exists" and changes nothing |
| Registry.BindAlreadyBound | src/ngrok/server/config.go:158-160 | binding an account whose secret is set fails with "already bind" and changes nothing |
| Registry.BindUnbound | src/ngrok/server/config.go:167-170 | binding an unbound account sets its secret, keeps its counters and changes no other entry |
| Registry.BindOnce | src/ngrok/server/config.go:158-168 | once a non-empty secret is bound, every further bind fails and leaves it in place |
| Registry.BindPreservesWellFormed | src/ngrok/server/config.go:149-171 | binding keeps the registry well formed |
| ConfigManager.ConfigMgr.BindUserInner | src/ngrok/server/config.go:149-171 | result and new state are those of `BindResult`/`Bind` on the old view; the maps are untouched and the invariant is kept |
| ConfigManager.ConfigMgr.BindUser | src/ngrok/server/config.go:173-180 | a successful bind saves the bound config under its key and returns nil; a failed one returns the bind error and leaves the store as it was |
| ConfigManager.ConfigMgr.GetUserInfo | src/ngrok/server/config.go:195-204 | returns the account filed under the id, or null exactly when there is none |
| ConfigManager.ConfigMgr.GetByDns | src/ngrok/server/config.go:206-215 | returns the owner of the subdomain, which lists it, or null exactly when the subdomain is unowned |
| Registry.LookupByDnsOwner | src/ngrok/server/config.go:206-215 | in a well-formed registry a subdomain lookup succeeds exactly for owned subdomains, and the owner lists the subdomain |
| ConfigManager.ConfigMgr.TimeoutAllDays | src/ngrok/server/config.go:217-224 | every account's per-day counter becomes zero; configs, lifetime counters and both maps are unchanged |
| Registry.ResetZeroesDayCounters | src/ngrok/server/config.go:221-223 | the reset zeroes each per-day counter and keeps ids, subdomains, configs and lifetime counters |
| Registry.ResetIdempotent | src/ngrok/server/config.go:217-224 | a second reset changes nothing |
| Registry.ResetPreservesWellFormed | src/ngrok/server/config.go:217-224 | the reset keeps the registry well formed |
| ConfigManager.UserInfo.CheckDns | src/ngrok/server/config.go:280-288 | true exactly when the name is one of the account's subdomains |
| ConfigManager.CheckForLogin | src/ngrok/server/config.go:290-312 | non-null exactly when `Decide` admits, and then it is the account filed under the client id; the registry becomes `Login` of the old one; the store is written, with the bound config, exactly on a first-use login |
| Registry.LoginDecisionTable | src/ngrok/server/config.go:290-312 | each decision holds if and only if its row of the gate holds: unknown id, wrong bound secret, first use, over quota, admitted |
| Registry.LoginRejectedUnchanged | src/ngrok/server/config.go:292-298 | a refused login changes nothing |
| Registry.LoginFirstUse | src/ngrok/server/config.go:300-302 | a login on an unbound account binds the password and is admitted without a quota check |
| Registry.LoginBindsOnce | src/ngrok/server/config.go:296-311 | after a first login with a non-empty secret, any other secret is refused, and the same secret is admitted exactly when the quota allows |
| Registry.LoginEmptyPasswordStaysUnbound | src/ngrok/server/config.go:296-302 | an empty password on an unbound account is admitted but leaves the account unbound |
| Registry.LoginOverQuota | src/ngrok/server/config.go:304-308 | a bound account past 1024*1024*1024 bytes for the day is refused even with its secret |
| Registry.LoginAfterReset | src/ngrok/server/config.go:217-224 | after the daily reset a bound account with its secret is admitted again |
| Registry.LoginPreservesWellFormed | src/ngrok/server/config.go:290-312 | a login keeps the registry well formed |
| Registry.BoundSecretStable | src/ngrok/server/config.go:126-312 | no add, bind, reset or login removes an account, changes a bound secret or changes a lifetime counter |
| Store.KeyFor | src/ngrok/server/config.go:95 | the store key is the prefix, a colon and the id |
| Store.KeyForInjective | src/ngrok/server/config.go:95 | distinct ids never share a store key |
| Store.SavedKeyIsScanned | src/ngrok/server/config.go:95-100 | a saved key is among those the prefix scan visits |
| ConfigManager.Db.Save | src/ngrok/server/config.go:93-97 | writes the config under its key, touches no other key, and returns nil |
| Store.SaveThenLoad | src/ngrok/server/config.go:93-123 | reading back a saved key yields the saved config and no error |
| Store.LoadFrom | src/ngrok/server/config.go:112-123 | exactly one of config and error is present; a config exactly when the key holds a decodable record, and then it is that record |
| Store.LoadFromAsWrittenLosesError | src/ngrok/server/config.go:115-118 | as written, a record that does not decode yields neither a config nor an error |
| Store.BlockTransform | src/ngrok/server/config.go:76-91 | two directory names: "__small" twice for a key shorter than four characters, else its first two pairs of characters |
| Store.RecordKeyShard | src/ngrok/server/config.go:76-95 | every record key is sharded into "ng"/"ro" |
| Store.ConfigsFrom | src/ngrok/server/config.go:101-103 | every config handed to the registry is the record under one of the scanned keys |
| Store.ConfigsComplete | src/ngrok/server/config.go:101-103 | every decodable scanned record is handed to the registry |
| ConfigManager.Db.LoadAll | src/ngrok/server/config.go:99-110 | visits every scanned key once, feeds each record that reads back to `AddUserConfig`, skips what is rejected, returns nil and keeps the invariant |
| Registry.ReplaySkipsRejected | src/ngrok/server/config.go:101-106 | a record the registry rejects is skipped and loading goes on |
| Registry.ReplayPreservesWellFormed | src/ngrok/server/config.go:99-110 | any sequence of adds keeps the registry well formed |
| Registry.ReplayAdmitsAll | src/ngrok/server/config.go:99-110 | replaying clash-free configs files every one of them under its id and subdomains and keeps earlier entries |
| Bootstrap.ConfigsNonConflicting | src/ngrok/server/config.go:99-110 | the records read once per scanned key, from a store whose scanned records are pairwise disjoint, never clash |
| Bootstrap.LoadRestores | src/ngrok/server/config.go:99-110 | loading a store whose records under the scanned keys are pairwise disjoint (keys outside the "ngrok" namespace are unconstrained) into an empty registry, in any scan order, makes every decodable record retrievable by its id and by each subdomain, with zero counters |
| ConfigManager.StartRegistry | src/ngrok/server/config.go:314-329 | start-up yields a valid registry equal to the replay of the scanned records, and from a consistent store every record is retrievable by id and by subdomain |
| ConfigManager.ConfigMgr.constructor | src/ngrok/server/config.go:322-323 | a new registry is empty over the given store |

## Left out

- `ConfigMain`'s HTTP server and handlers (`appHandler`, `addUser`, `showInfo`), the static file server and the 24-hour ticker: I/O and scheduling. The ticker only calls `TimeoutAllDays`, which is modelled.
- `ListAll`: it only renders JSON for the `/info` page.
- The package-level wrappers `GetMgr`, `GetUserInfo` and `GetByDns`: they forward to the global `cMgr`, which the model passes explicitly.
- The read-write mutex and the atomic loads and stores: concurrency. No interleaving is modelled, and each method runs as one step.
- Counter increments: the traffic counters are only read and reset in this file, and whatever bumps them is not part of this model. `transPerDay` is `int64`, so only values in range can be reached; no overflow arises here.
- JSON encoding and the diskv library: a record is a `Blob` (a config, or bytes that do not decode). The cache, file paths and the on-disk format are not modelled. The "/tmp/db-diskv" base path is a constant the model does not need.
- Db.Save: the model's store accepts every write. A failed diskv write is not modelled: the record would be absent while `Save`, and so `BindUser` and `CheckForLogin`, still report success, leaving the bind only in memory until a restart. The unused `mgr` parameter is dropped.
- The `log.Println` of a load error in `LoadAll`: logging is I/O. The record is skipped, as the model does.
- Store.BlockTransform and Store.KeyFor: Go's `len` and slicing count bytes, and the model counts characters. They agree on ASCII ids.
- Pointer sharing of `*UserConfig`: Go stores the caller's pointer, so the config saved by `addUser` and the registry's copy alias. The model holds configs as values inside `UserInfo`.
- The nil check of `ui.Uc` in `bindUserInner`: the field is dereferenced on the line before, and no operation stores a nil config, so the check cannot fire.
- CheckForLogin: the result of `BindUser` is ignored, as in the source. A bind that races and fails is not modelled, because there is no concurrency.
- Db.LoadAll: the record is fed to `AddUserConfig` as returned by the corrected `LoadFrom` (see Findings). The scan order of `KeysPrefix` is left open.

## Findings

| source | as written | input that shows it | evidently intended | confidence | as-written member | corrected member |
|---|---|---|---|---|---|---|
| src/ngrok/server/config.go:115-118 | when `json.Unmarshal` fails, `loadFrom` returns the read error `err`, which is nil, so it returns `(nil, nil)` and `LoadAll` calls `AddUserConfig(nil)` | a key under "ngrok" whose stored bytes are not valid JSON | return the decode error `err2`, so `LoadAll` logs and skips the record | high (not executed) | Store.LoadFromAsWrittenLosesError | Store.LoadFrom |
