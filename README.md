# pgpkeys WKD key server — a Dafny model of its core

The server publishes OpenPGP keys for the members of one e-mail domain
through the Web Key Directory (WKD) protocol. Three pieces of sequential
logic sit under its HTTP and network layers, and this project models them:

- **The manifest parser and the entry store.** `map.txt` lists groups of
  lines: `U: <user ID>`, `W: <WKD hash>`, then zero or more `P: <key file>`.
  `getKeysURL` reads the groups left to right, drops those whose user ID is
  outside the domain, fails on an accepted group with no key file, and merges
  groups that share a hash. `loadKeys` then sets every manifest hash to its
  user IDs and its keys, sorted newest first. `findEntryKey` and
  `hasFingerprint` search the store by fingerprint, ignoring case. The older
  `pgpkeys` class does the same work with its own `loadMap` and `loadKeys`.
  That revision checks for key files before the domain, and on a merge it
  records the user ID rather than the hash.
- **The fingerprint-addressed key set** `PubKeySet`. It offers lookup by
  fingerprint, `toArray`, `map`, and the concatenation of every key's packet
  bytes.
- **The push webhook.** `updateHook` runs a gate of header, signature and
  branch checks. It then deletes the keys whose files a push removed, and
  replaces the keys whose files it modified, in that order. It reports both
  as actions. The older `handleWebhook` runs the same gate and then only
  decides which early `return` to take.

Modules, one per file:

| module | models |
|---|---|
| `Wrappers` | `Option` and `Result` |
| `Text` | `toUpperCase` on ASCII letters, `startsWith`, `endsWith`, `substring`, `split`, `filter(Boolean)` |
| `Keys` | a key as a record of fingerprint, creation time, user IDs, expiry, etag and packet bytes; fingerprint matching; the stable newest-first sort |
| `OrderedMaps` | a JavaScript `Map` as a key sequence in insertion order plus a finite map |
| `Manifest` | the `mapItemRegex` grammar: line splitting, a reference definition of the groups, and a `U`→`W`→`P` scanner proved equal to it |
| `EntryStore` | the WKD store as values: lookup, key counts, and the delete and update operations the webhook calls |
| `WKDEntries` | `getKeysURL`, `loadKeys` and the `WKDEntryManager` class |
| `PubKeySets` | `PubKeySet` |
| `PgpKeys` | the older `pgpkeys` class: `loadMap` and `loadKeys` |
| `Webhook` | the push request and the gate shared by both handlers |
| `UpdateHook` | `filterKeyFiles` and `updateHook` |
| `HandleWebhook` | the older `filterKeyFiles` and handler |

Collaborators outside the core are parameters:

- `isDomain: string -> bool` stands for `emailRegex.test`.
- `Keys.KeyFileUrl(file)` stands for `pubKeyURL(file)`.
- `fetch: Url -> Option<PubKey>` stands for fetching a key file and reading
  the key in it. `None` is a fetch or parse failure.
- `resolve(commit, f)` stands for reading the key file of fingerprint `f` at
  `commit`.
- `HookEnv.verifySignature` stands for the HMAC check, and
  `HookEnv.stringify` for `JSON.stringify`.

The store methods the webhook calls (`deletePubKey`, `hasPubKey`,
`updatePubKey`, `pubKeySize`, `size`) are not in
`src/lib/WKDEntryManager.ts`. They are defined on the model store:

- `EntryStore.DeleteKey` removes the first key that matches the fingerprint
  and returns it, or returns nothing. An entry left with no keys is dropped.
- `EntryStore.HasFingerprint` is `hasFingerprint`.
- `EntryStore.UpdateKey` replaces the matching key in place and returns the
  old and the new key.
- `EntryStore.KeyCount` and `EntryStore.EntryCount` are `pubKeySize` and
  `size`.

`EntryStore.UniqueFingerprints` states that each fingerprint occurs at most
once in the store. Deleting and updating preserve it.

Notes on what the code does, which the model follows:

- On a merge, `getKeysURL` appends the hash, not the user ID, to the entry's
  `uid` list (src/lib/WKDEntryManager.ts:60). The key files are concatenated
  with duplicates kept, not unioned.
- A key that fails to resolve during `loadKeys` stops the loop. The hashes
  set before it stay set, so the load is not atomic.

## Model

| member | source | states |
|---|---|---|
| Text.ToUpper | src/lib/WKDEntryManager.ts:29 | `toUpperCase` maps each character on its own and keeps the length |
| Text.ToUpperIdempotent | src/lib/WKDEntryManager.ts:29 | upper-casing twice is upper-casing once, so comparing upper-cased strings ignores case |
| Text.Split | src/lib/WKDEntryManager.ts:51 | `split("\n")` never returns an empty list |
| Text.DropEmpty | src/lib/WKDEntryManager.ts:52 | `filter(Boolean)` keeps no empty string and never lengthens the list |
| Keys.UserIDs | src/lib/util/updateHook.ts:59-60 | `getUserIDs()` lists one user ID per user, in order |
| Keys.MatchesIgnoresCase | src/lib/WKDEntryManager.ts:29 | a key matches `f` exactly when it matches `f` upper-cased |
| Keys.FirstMatch | src/lib/PubKeySet.ts:9-14 | the position of the first key that matches, with no match before it; `None` exactly when no key matches |
| Keys.FirstMatchIgnoresCase | src/lib/PubKeySet.ts:9-14 | the first match is the same for `f` and for `toUpperCase(f)` |
| Keys.SortNewestFirst | src/lib/WKDEntryManager.ts:23 | the sort returns a permutation of the keys ordered by non-increasing creation time |
| Keys.SortIsStable | src/lib/WKDEntryManager.ts:23 | keys created at the same time keep their relative order, as the stable JavaScript sort does |
| OrderedMaps.OMap.Put | src/lib/WKDEntryManager.ts:62-64 | `Map.set` stores the value; a new key goes last and an existing key keeps its place; keys stay distinct |
| OrderedMaps.Empty | src/lib/WKDEntryManager.ts:41 | `new Map()` has no keys |
| Manifest.ScanGroups | src/constants.ts:9 | the `U`→`W`→`P` scanner over the lines returns exactly the groups the grammar matches |
| Manifest.GroupsAtMatch | src/constants.ts:9 | a `U:` line followed by a `W:` line and a run of `P:` lines is one match with those files; matching resumes after the run |
| Manifest.GroupsSkip | src/constants.ts:9 | a line that does not start a `U:`/`W:` pair starts no match |
| Manifest.ParseRendered | src/constants.ts:9 | a manifest written from groups, every line ended by `\n`, matches back to exactly those groups |
| Manifest.UnterminatedLastLine | src/constants.ts:9 | a final `P:` line with no `\n` after it is not captured |
| Manifest.ExtractFilesOfCapture | src/lib/WKDEntryManager.ts:50-53 | splitting the captured `P:` lines, dropping empty pieces and removing `"P: "` gives the listed files in order |
| EntryStore.FirstHolding | src/lib/WKDEntryManager.ts:28-31 | the first position in a hash list whose entry holds the fingerprint; `None` exactly when none does |
| EntryStore.FindEntryKey | src/lib/WKDEntryManager.ts:27-32 | the hash found is in the store and holds the fingerprint; `undefined` exactly when no entry holds it |
| EntryStore.FindEntryKeyIsFirst | src/lib/WKDEntryManager.ts:28-29 | no hash earlier in iteration order holds the fingerprint |
| EntryStore.HasFingerprintIff | src/lib/WKDEntryManager.ts:34-36 | `hasFingerprint(f)` holds exactly when some entry holds a key with fingerprint `f` |
| EntryStore.FindEntryKeyIgnoresCase | src/lib/WKDEntryManager.ts:29 | `findEntryKey` and `hasFingerprint` give the same answer for `f` and for `f` upper-cased |
| EntryStore.StoredKey | src/lib/util/updateHook.ts:38 | the key a lookup of `f` finds matches `f` and is held by an entry holding `f` |
| EntryStore.StoredKeyIgnoresCase | src/lib/util/updateHook.ts:55-57 | fingerprints equal up to case find the same key |
| EntryStore.DeleteKey | src/lib/util/updateHook.ts:38 | `deletePubKey` returns a key exactly when the store holds the fingerprint, and that key is the one a lookup finds; otherwise the store is unchanged |
| EntryStore.DeleteKeyEffect | src/lib/util/updateHook.ts:38 | the entry holding the key found loses exactly that key and keeps its user IDs, or is dropped with its hash when it was its only key; every other entry is unchanged |
| EntryStore.DeleteKeyCounts | src/lib/util/updateHook.ts:38-47 | a deletion lowers `pubKeySize` by one, and lowers `size` by one only when it took an entry's last key |
| EntryStore.DeleteKeyOnlyShrinks | src/lib/util/updateHook.ts:38 | after a deletion, every fingerprint an entry holds it held before |
| EntryStore.DeleteKeyRemovesFingerprint | src/lib/util/updateHook.ts:38 | with unique fingerprints, the deleted fingerprint is gone and fingerprints stay unique |
| EntryStore.UpdateKey | src/lib/util/updateHook.ts:57 | `updatePubKey` returns the key a lookup found and the new key; the hashes are unchanged |
| EntryStore.UpdateKeyEffect | src/lib/util/updateHook.ts:57 | in the entry holding the key found, that key and only it becomes the new key; user IDs, hashes and every other entry are unchanged |
| EntryStore.UpdateKeyStored | src/lib/util/updateHook.ts:55-57 | after an update with a key for `f`, a lookup of `f` finds the new key and a lookup of any other held fingerprint finds the key it found before |
| EntryStore.UpdateKeyCounts | src/lib/util/updateHook.ts:57 | an update keeps `pubKeySize` and `size` |
| EntryStore.UpdateKeyKeepsLookups | src/lib/util/updateHook.ts:55-57 | replacing a key by one with the same fingerprint keeps every fingerprint lookup and keeps fingerprints unique |
| WKDEntries.Urls | src/lib/WKDEntryManager.ts:54 | one `pubKeyURL` per file, in order |
| WKDEntries.GetKeysURL | src/lib/WKDEntryManager.ts:38-69 | the `exec` loop returns the fold of the merge step over the matches, in manifest order |
| WKDEntries.KeysFromErrSticky | src/lib/WKDEntryManager.ts:56 | once a match throws, the later matches do not matter |
| WKDEntries.RejectedGroupIgnored | src/lib/WKDEntryManager.ts:44-48 | a match whose user ID fails the domain filter leaves the result unchanged |
| WKDEntries.KeysFromFails | src/lib/WKDEntryManager.ts:50-56 | the parse fails exactly when some accepted match lists no key file; the error names the first such match's user ID and hash |
| WKDEntries.ExpectedGrows | src/lib/WKDEntryManager.ts:58-61 | merging a match appends the hash to `uid` and the match's files after the existing ones |
| WKDEntries.AddGroupDescribes | src/lib/WKDEntryManager.ts:47-65 | one step keeps the result equal to the reference description of the accepted matches |
| WKDEntries.KeysFromEntries | src/lib/WKDEntryManager.ts:41-68 | each hash's entry is the first accepted match's user ID, then the hash once per later match, and all their files in order |
| WKDEntries.KeysFromNonEmpty | src/lib/WKDEntryManager.ts:56-64 | every entry of a successful parse has at least one user ID and one file |
| WKDEntries.ResultHashes | src/lib/WKDEntryManager.ts:41-68 | the hashes of the result are exactly the hashes of the accepted matches |
| WKDEntries.ResolveAll | src/lib/WKDEntryManager.ts:12-20 | all files resolve, one key per file in file order, or some file fails |
| WKDEntries.InstallErrSticky | src/lib/WKDEntryManager.ts:10-20 | once a hash fails to resolve, the later hashes do not matter |
| WKDEntries.InstallEffect | src/lib/WKDEntryManager.ts:10-24 | nothing is removed; unvisited hashes are untouched; every visited hash is set to its user IDs and its keys sorted newest first, or the loop stopped at a hash whose files fail |
| WKDEntries.InstallNoEmpty | src/lib/WKDEntryManager.ts:10-24 | setting entries that each have a file leaves no entry without keys |
| WKDEntries.LoadEffectAt | src/lib/WKDEntryManager.ts:6-25 | for one hash: it is never removed; a hash no accepted match names keeps its entry; on success an accepted hash holds the `uid` list of its matches and exactly the keys its key files resolve to, sorted newest first |
| WKDEntries.LoadEffect | src/lib/WKDEntryManager.ts:6-25 | the same, for every hash at once |
| WKDEntries.WKDEntryManager.constructor | src/lib/WKDEntryManager.ts:5 | a new manager is an empty store |
| WKDEntries.WKDEntryManager.LoadKeys | src/lib/WKDEntryManager.ts:6-25 | the loop leaves the store and the result that `Load` gives |
| WKDEntries.WKDEntryManager.FindEntryKey | src/lib/WKDEntryManager.ts:27-32 | the early-return loop returns `EntryStore.FindEntryKey` |
| WKDEntries.WKDEntryManager.HasFingerprint | src/lib/WKDEntryManager.ts:34-36 | true exactly when some entry holds the fingerprint |
| WKDEntries.WKDEntryManager.DeletePubKey | src/lib/util/updateHook.ts:38 | the store and the returned key are those of `EntryStore.DeleteKey` |
| WKDEntries.WKDEntryManager.UpdatePubKey | src/lib/util/updateHook.ts:57 | the store and the returned pair are those of `EntryStore.UpdateKey` with the key read at the commit |
| PubKeySets.PubKeySet.Get | src/lib/PubKeySet.ts:9-14 | the first member, in order, whose fingerprint matches; `undefined` exactly when none matches |
| PubKeySets.HasFingerprintIff | src/lib/PubKeySet.ts:16-18 | `hasFingerprint(f)` holds exactly when some member matches `f` |
| PubKeySets.GetIgnoresCase | src/lib/PubKeySet.ts:11 | `get(f) == get(toUpper(f))` |
| PubKeySets.DuplicatesKept | src/lib/PubKeySet.ts:8-14 | two different records with the same fingerprint are both kept, and `get` returns the earlier |
| PubKeySets.PubKeySet.ToArray | src/lib/PubKeySet.ts:20-22 | as many elements as members, in iteration order |
| PubKeySets.PubKeySet.Map | src/lib/PubKeySet.ts:24-26 | one result per member, in iteration order |
| PubKeySets.ConcatLength | src/lib/PubKeySet.ts:30 | `Buffer.concat` is as long as its parts together |
| PubKeySets.CombineBinaryLayout | src/lib/PubKeySet.ts:29-34 | the blob is as long as all members' packets, and each member's packets sit right after those of the members before it |
| PubKeySets.CombineBinaryAppend | src/lib/PubKeySet.ts:29-34 | the blob of two member lists is their two blobs one after the other |
| PgpKeys.MapFromErrSticky | src/lib/pgpkeys.ts:26 | once a match throws, the later matches do not matter |
| PgpKeys.MapFromExtends | src/lib/pgpkeys.ts:13-39 | `loadMap` only adds entries or extends their `uid` and file lists, even when it throws |
| PgpKeys.MapStepFails | src/lib/pgpkeys.ts:22-26 | one pass of `loadMap` throws exactly when its match lists no key file, and the error names that match's user ID |
| PgpKeys.MapFromFails | src/lib/pgpkeys.ts:22-26 | `loadMap` throws exactly when some match lists no key file, whatever its domain |
| PgpKeys.MapFromFirstError | src/lib/pgpkeys.ts:22-26 | when `loadMap` throws, the error names the user ID of the first match without key files |
| PgpKeys.SkipsForeignUid | src/lib/pgpkeys.ts:28 | a match outside the domain that has key files leaves the mapping unchanged |
| PgpKeys.MergeAppendsUid | src/lib/pgpkeys.ts:30-36 | a repeated hash appends the user ID and the match's files |
| PgpKeys.MapStepDescribes | src/lib/pgpkeys.ts:18-37 | one successful pass keeps the reference description, adding the match when its UID is accepted; a first match for a hash gives `{ uid: [UID], pubKeys }` |
| PgpKeys.MapFromEntries | src/lib/pgpkeys.ts:13-39 | a `loadMap` that does not throw adds exactly the accepted matches: a new hash maps to its first UID, the later UIDs and all files in order; a mapped hash gets them appended; other hashes are unchanged; new hashes follow the old ones in first-seen order |
| PgpKeys.ForeignEmptyMatch | src/lib/pgpkeys.ts:26-28 | a match outside the domain with no key file throws here but is passed over by `getKeysURL` |
| PgpKeys.MergeRecords | src/lib/pgpkeys.ts:30-33 | on a merge this loader records the user ID where `getKeysURL` records the hash |
| PgpKeys.FetchKeys | src/lib/pgpkeys.ts:43-48 | one key per file in file order, or some file fails |
| PgpKeys.SetKeysErrSticky | src/lib/pgpkeys.ts:42-50 | once a hash fails to resolve, the later hashes do not matter |
| PgpKeys.SetKeysEffect | src/lib/pgpkeys.ts:41-52 | hashes not visited keep their keys; on success every mapped hash holds its keys, one per file in file order, unsorted |
| PgpKeys.PgpKeyStore.constructor | src/lib/pgpkeys.ts:8-11 | a new store has no keys and an empty mapping |
| PgpKeys.PgpKeyStore.LoadMap | src/lib/pgpkeys.ts:13-39 | the loop leaves the mapping and the error that `MapFrom` gives, which `PgpKeys.MapFromEntries` describes entry by entry; the keys are untouched |
| PgpKeys.PgpKeyStore.LoadKeys | src/lib/pgpkeys.ts:41-52 | the loop leaves the keys and the error that `SetKeys` gives; the mapping is untouched |
| Webhook.RejectionOf | src/lib/util/updateHook.ts:19-28 | a failed signature check is answered 401, any other failed check 400 |
| Webhook.GateIsFirstFailure | src/lib/util/updateHook.ts:19-28 | the gate rejects with the reply of the first failing check, in the order content type, event, delivery ID, signature present, signature valid, branch |
| Webhook.GateLetsThrough | src/lib/util/updateHook.ts:19-28 | the gate lets a request through exactly when every check passes |
| Webhook.BadSignatureIs401 | src/lib/util/updateHook.ts:22-25 | with the first three checks passed, a missing or invalid signature is answered 401 |
| UpdateHook.KeepKeys | src/lib/util/updateHook.ts:9 | keeps only paths under `"keys/"`, never lengthening the list |
| UpdateHook.StripAsc | src/lib/util/updateHook.ts:11 | removes one trailing `".asc"` and nothing else |
| UpdateHook.FilterKeyFilesAppend | src/lib/util/updateHook.ts:7-12 | filtering a concatenation filters each part, so order is kept |
| UpdateHook.FilterKeyFilesOne | src/lib/util/updateHook.ts:7-12 | one path gives its name without `"keys/"` and `".asc"` when it is under `"keys/"`, else nothing |
| UpdateHook.FilterKeyFilesShorter | src/lib/util/updateHook.ts:7-12 | the output is never longer than the input |
| UpdateHook.KeyFileName | src/lib/util/updateHook.ts:7-12 | `keys/<fp>.asc` gives `<fp>` |
| UpdateHook.OtherPathsDropped | src/lib/util/updateHook.ts:9 | paths outside `"keys/"` give nothing |
| UpdateHook.DomainUser | src/lib/util/updateHook.ts:40 | the user ID of the first user in the domain, or none when no user is in the domain |
| UpdateHook.RemoveAll | src/lib/util/updateHook.ts:37-44 | the removal `reduce` keeps the store well formed |
| UpdateHook.RemoveAllValid | src/lib/util/updateHook.ts:37-44 | the removals keep every entry non-empty |
| UpdateHook.RemoveAllReport | src/lib/util/updateHook.ts:36-44 | one report line per key actually deleted (`pubKeySize` drops by the report's length), each naming an upper-cased requested fingerprint |
| UpdateHook.RemoveAllOne | src/lib/util/updateHook.ts:37-43 | one fingerprint: the store `deletePubKey` leaves, and a report line for the key it returned, or none |
| UpdateHook.RemoveAllAppend | src/lib/util/updateHook.ts:36-44 | removing `a + b` removes `a`, then `b`, and reports `a`'s lines then `b`'s: the report lists the deleted keys in request order |
| UpdateHook.UnknownFingerprintSkipped | src/lib/util/updateHook.ts:38-39 | a fingerprint the store does not hold changes nothing and is not reported |
| UpdateHook.RemoveAllShrinks | src/lib/util/updateHook.ts:36-44 | the removals add no fingerprint to any entry |
| UpdateHook.RemoveAllClears | src/lib/util/updateHook.ts:36-44 | with unique fingerprints, no requested fingerprint remains, and fingerprints stay unique |
| UpdateHook.Present | src/lib/util/updateHook.ts:55 | the filter keeps a requested fingerprint exactly when the store holds it |
| UpdateHook.PresentAppend | src/lib/util/updateHook.ts:55 | the filter distributes over concatenation, so it keeps the request order |
| UpdateHook.PresentOne | src/lib/util/updateHook.ts:55 | one fingerprint is kept exactly when the store holds it |
| UpdateHook.UpdateKeepsPresence | src/lib/util/updateHook.ts:55-57 | an update keeps every held fingerprint held |
| UpdateHook.UpdateAll | src/lib/util/updateHook.ts:54-70 | one report line per updated fingerprint, in order, naming the new key's fingerprint upper-cased |
| UpdateHook.LastNamed | src/lib/util/updateHook.ts:55-57 | the last requested fingerprint equal to `g` up to case, or none |
| UpdateHook.UpdateAllStores | src/lib/util/updateHook.ts:54-58 | afterwards a lookup of each held fingerprint finds the key read for the last request naming it, or its old key when none does |
| UpdateHook.UpdateAllReports | src/lib/util/updateHook.ts:57-68 | report line `i` pairs the summary of the key a lookup found just before request `i` with the summary of the key read for it |
| UpdateHook.UpdateAllKeeps | src/lib/util/updateHook.ts:53-70 | the modify step keeps the hashes, `pubKeySize`, every lookup and unique fingerprints, so no fingerprint is created |
| UpdateHook.ModifyPhaseReports | src/lib/util/updateHook.ts:53-57 | the modify step reports no fingerprint the store lacks when it starts |
| UpdateHook.RemovedNotModified | src/lib/util/updateHook.ts:36-55 | with unique fingerprints, no fingerprint removed by the push is reported as modified |
| UpdateHook.HookResponse | src/lib/util/updateHook.ts:19-75 | a rejection happens exactly when the gate fails and leaves the store alone; a success has at most two actions, remove before modify, each with at least one key |
| UpdateHook.RemovedPathsOutside | src/lib/util/updateHook.ts:31 | removed paths outside `"keys/"` give nothing to remove |
| UpdateHook.ModifiedPathsOutside | src/lib/util/updateHook.ts:32 | modified paths outside `"keys/"` give nothing to modify |
| UpdateHook.OtherPushesChangeNothing | src/lib/util/updateHook.ts:78-82 | a push touching nothing under `"keys/"`, such as one that changes only `map.txt`, changes nothing and reports no action |
| UpdateHook.RemoveKeys | src/lib/util/updateHook.ts:36-44 | the removal loop leaves the store and the report that `RemoveAll` gives |
| UpdateHook.FilterPresent | src/lib/util/updateHook.ts:55 | the filter loop returns `Present` on the current store |
| UpdateHook.UpdateKeys | src/lib/util/updateHook.ts:54-70 | the update loop leaves the store and the report that `UpdateAll` gives, which `UpdateAllStores` and `UpdateAllReports` spell out |
| UpdateHook.HookStores | src/lib/util/updateHook.ts:34-71 | after an accepted push, each fingerprint held after the removals finds the key read for the last modified file naming it, or its old key |
| UpdateHook.Handle | src/lib/util/updateHook.ts:14-83 | the handler leaves the store and the response that `Hook` gives, whose effect `HookResponse`, `RemoveAllAppend` and `HookStores` state |
| HandleWebhook.KeyPaths | src/lib/util/handleWebhook.ts:7-11 | each kept path is `"keys/"` followed by the returned name |
| HandleWebhook.LaterFilterStripsAsc | src/lib/util/handleWebhook.ts:7-11 | the later filter is this one followed by stripping `".asc"` |
| HandleWebhook.KeyFileKeepsAsc | src/lib/util/handleWebhook.ts:7-11 | `keys/<fp>.asc` gives `<fp>.asc`; the suffix is kept |
| HandleWebhook.AnyHeld | src/lib/util/handleWebhook.ts:34 | `some(hasFingerprint)` holds exactly when some name is held |
| HandleWebhook.Decide | src/lib/util/handleWebhook.ts:13-49 | the request is rejected exactly when the gate fails |
| HandleWebhook.DecideExits | src/lib/util/handleWebhook.ts:33-44 | the first exit is taken exactly when modified names were pushed and none is held, before the removed names are looked at; the second exactly when removed names were pushed, none is held, and the first exit was not taken |
| HandleWebhook.AcceptedGetsNoAction | src/lib/util/handleWebhook.ts:35-49 | every accepted push gets `{ ok: true, action: null }`, whatever the store holds |
| HandleWebhook.SameGateAsUpdateHook | src/lib/util/handleWebhook.ts:17-27 | this handler rejects the same requests as `updateHook`, with the same status and error |
| HandleWebhook.DottedNeverHeld | src/lib/util/handleWebhook.ts:34 | when no stored fingerprint has a `'.'`, a name with a `'.'` is never held |
| HandleWebhook.AscKeyFilesNeverKnown | src/lib/util/handleWebhook.ts:30-35 | a push that modifies only `keys/<name>.asc` files always takes the first exit, since the kept `".asc"` matches no fingerprint |

## Left out

- Network I/O (`fetchContent`, `node-fetch`) is not modelled. The fetched
  manifest text is an input, and fetching and reading a key file is the
  `fetch` parameter. Conditional fetches and etag reuse are not implemented
  in the code, so they are not modelled; an etag is just a field of the key
  record.
- The openpgp library is not modelled. Each key is a record, and `readKey`,
  `getFingerprint`, `getCreationTime`, `getUserIDs`, `getExpirationTime` and
  `toPacketList().write` become fields or parameters.
- `verifySignature` is not modelled. Its HMAC is the opaque
  `verifySignature` predicate of `HookEnv`, applied to `JSON.stringify(body)`
  as the code does.
- The Fastify server, routing, compression and process signal handlers
  (src/server.ts, src/lib/server.ts, src/index.ts) are not part of this
  model.
- Environment reads in src/constants.ts and src/consts.ts are not modelled.
  `emailRegex` is the opaque `isDomain`, and its word boundaries and
  unescaped domain are not encoded.
- Keys.KeyFileUrl: both `pubKeyURL` builders are modelled by one
  constructor of the file name, so their different base URLs are not
  modelled.
- `Promise.all` in both `loadKeys` and in the modify path runs its fetches
  concurrently. The model runs them one after another, in order. A failure
  is modelled as stopping the loop.
- The `map.txt` full-resync branch is an empty TODO, so it has no behaviour
  to model. `UpdateHook.OtherPushesChangeNothing` states the consequence.
- `req.log.info` logging is not modelled. `pubKeySize` and `size` appear
  only through `EntryStore.KeyCount` and `EntryStore.EntryCount`.
- Text.ToUpper upper-cases the ASCII letters only. Full Unicode
  `toUpperCase`, such as `ß` becoming `SS`, is not modelled; fingerprints
  are hexadecimal.
- `updateHook` destructures the body before the gate
  (src/lib/util/updateHook.ts:15-16), so a missing body would throw before
  any check. `handleWebhook` only casts the body there
  (src/lib/util/handleWebhook.ts:14) and destructures it after the header
  and signature checks (src/lib/util/handleWebhook.ts:24). The model reads
  the body as a record that is always present.
- UpdateHook.UpdateAll requires `NamedByFingerprint(resolve)`: the key
  file of fingerprint `f` holds a key with fingerprint `f`. The code does
  not check this. Without it, a later fingerprint in the same push might no
  longer be found by `updatePubKey`, and the model does not describe that
  case. Every statement about the modify step rests on this assumption:
  `UpdateHook.UpdateAllKeeps` (no fingerprint is created or lost),
  `UpdateHook.UpdateAllStores`, `UpdateHook.UpdateAllReports`,
  `UpdateHook.HookStores`, `UpdateHook.ModifyPhaseReports` (a reported
  fingerprint was held, because the new key's fingerprint is the requested
  one), `UpdateHook.RemovedNotModified`, `UpdateHook.HookResponse` and the
  methods `UpdateHook.UpdateKeys` and `UpdateHook.Handle`. The report line
  itself is stated without it: `UpdateHook.UpdateAll` names the new key's
  fingerprint, as the code does.
- WKDEntries.WKDEntryManager.UpdatePubKey takes the key it installs from
  `resolve(commit, f)` and does not model the fetch behind it or a failure
  of that fetch.
- HandleWebhook.Decide returns which `return` was reached. The reply the
  client sees is `HandleWebhook.ReplyOf` of it, so the exit itself is not
  observable.
- Serialising webhook deliveries against a load, and replacing an entry
  atomically, are not modelled: the model is sequential.
