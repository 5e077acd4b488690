/**
 * `updateHook`: the push webhook that keeps the store in step with the key
 * repository. After the gate it deletes the keys whose files the push
 * removed, then replaces the keys whose files it modified, and reports
 * both as actions.
 */
module UpdateHook {
  import opened Wrappers
  import opened Text
  import opened Keys
  import opened Webhook
  import EntryStore
  import opened WKDEntries

  // ---------------------------------------------------------------------
  // filterKeyFiles
  // ---------------------------------------------------------------------

  /** `filter(f => f.startsWith("keys/"))`. */
  function KeepKeys(files: seq<string>): (r: seq<string>)
    ensures |r| <= |files|
    ensures forall g :: g in r ==> g in files && StartsWith(g, "keys/")
  {
    if files == [] then []
    else (if StartsWith(files[0], "keys/") then [files[0]] else []) + KeepKeys(files[1..])
  }

  /** `replace(/\.asc$/, "")`: one trailing ".asc" is removed. */
  function StripAsc(f: string): (r: string)
    ensures EndsWith(f, ".asc") ==> r + ".asc" == f
    ensures !EndsWith(f, ".asc") ==> r == f
  {
    if EndsWith(f, ".asc") then f[..|f| - 4] else f
  }

  /** `filterKeyFiles`: the paths under "keys/", without that prefix and without one trailing ".asc". */
  function FilterKeyFiles(files: seq<string>): seq<string> {
    var kept := KeepKeys(files);
    seq(|kept|, i requires 0 <= i < |kept| => StripAsc(Substring(kept[i], |"keys/"|)))
  }

  lemma {:induction false} KeepKeysAppend(a: seq<string>, b: seq<string>)
    ensures KeepKeys(a + b) == KeepKeys(a) + KeepKeys(b)
  {
    if a == [] {
      assert a + b == b;
    } else {
      assert (a + b)[1..] == a[1..] + b;
      KeepKeysAppend(a[1..], b);
    }
  }

  /** Filtering a concatenation filters each part, in order: the result keeps the order of the paths. */
  lemma {:induction false} FilterKeyFilesAppend(a: seq<string>, b: seq<string>)
    ensures FilterKeyFiles(a + b) == FilterKeyFiles(a) + FilterKeyFiles(b)
  {
    KeepKeysAppend(a, b);
  }

  /** One path: kept, stripped, exactly when it is under "keys/". */
  lemma {:induction false} FilterKeyFilesOne(f: string)
    ensures FilterKeyFiles([f]) == if StartsWith(f, "keys/") then [StripAsc(f[5..])] else []
  {
    assert [f][1..] == [];
  }

  /** The output is never longer than the input. */
  lemma {:induction false} FilterKeyFilesShorter(files: seq<string>)
    ensures |FilterKeyFiles(files)| <= |files|
  {
  }

  /** A key file named after a fingerprint gives back that fingerprint. */
  lemma {:induction false} KeyFileName(fp: string)
    ensures FilterKeyFiles(["keys/" + fp + ".asc"]) == [fp]
  {
    var p := "keys/" + fp + ".asc";
    FilterKeyFilesOne(p);
    assert p[..5] == "keys/";
    assert p[5..] == fp + ".asc";
    assert StripAsc(fp + ".asc") + ".asc" == fp + ".asc";
  }

  /** A path outside "keys/", such as the manifest "map.txt", gives nothing. */
  lemma {:induction false} OtherPathsDropped(files: seq<string>)
    requires forall i :: 0 <= i < |files| ==> !StartsWith(files[i], "keys/")
    ensures FilterKeyFiles(files) == []
  {
    assert KeepKeys(files) == [] by {
      KeepNone(files);
    }
  }

  lemma {:induction false} KeepNone(files: seq<string>)
    requires forall i :: 0 <= i < |files| ==> !StartsWith(files[i], "keys/")
    ensures KeepKeys(files) == []
  {
    if files != [] {
      KeepNone(files[1..]);
    }
  }

  // ---------------------------------------------------------------------
  // The report
  // ---------------------------------------------------------------------

  /** `{ U, F }`: the removed key's first in-domain user ID, if any, and its upper-cased fingerprint. */
  datatype Removal = Removal(user: Option<string>, fingerprint: string)

  /** `{ UIDs, EXP }`. */
  datatype KeySummary = KeySummary(uids: seq<string>, expiry: Option<int>)

  /** `{ F, O, N }`. */
  datatype Modification = Modification(fingerprint: string, before: KeySummary, after: KeySummary)

  datatype Action = Remove(removed: seq<Removal>) | Modify(modified: seq<Modification>)

  /** A rejection, or `{ ok: true, actions }`. */
  datatype Response = Rejected(rejection: Rejection) | Done(actions: seq<Action>)

  /** `users.find(u => emailRegex.test(u.userID.email))?.userID.userID`. */
  function DomainUser(users: seq<UserId>, isDomain: string -> bool): (r: Option<string>)
    ensures r.None? <==> forall i :: 0 <= i < |users| ==> !isDomain(users[i].email)
    ensures r.Some? ==>
      exists i :: && 0 <= i < |users| && isDomain(users[i].email) && r.value == users[i].userID
                  && (forall j :: 0 <= j < i ==> !isDomain(users[j].email))
  {
    if users == [] then None
    else if isDomain(users[0].email) then Some(users[0].userID)
    else DomainUser(users[1..], isDomain)
  }

  function RemovalOf(k: PubKey, isDomain: string -> bool): Removal {
    Removal(DomainUser(k.users, isDomain), ToUpper(k.fingerprint))
  }

  function Summary(k: PubKey): KeySummary {
    KeySummary(UserIDs(k), k.expiry)
  }

  function ModificationOf(oldKey: PubKey, newKey: PubKey): Modification {
    Modification(ToUpper(newKey.fingerprint), Summary(oldKey), Summary(newKey))
  }

  // ---------------------------------------------------------------------
  // The store steps
  // ---------------------------------------------------------------------

  /**
   * The removal `reduce`: every fingerprint is passed to `deletePubKey` in
   * order, and a report entry is added for each call that removed a key.
   */
  function RemoveAll(st: EntryStore.Store, fs: seq<string>, isDomain: string -> bool)
    : (r: (EntryStore.Store, seq<Removal>))
    requires st.Valid()
    ensures r.0.Valid()
    decreases |fs|
  {
    if fs == [] then (st, [])
    else
      var (st1, k) := EntryStore.DeleteKey(st, fs[0]);
      var (st2, rs) := RemoveAll(st1, fs[1..], isDomain);
      (st2, (if k.Some? then [RemovalOf(k.value, isDomain)] else []) + rs)
  }

  /** `toModify.filter(f => wkd.hasPubKey(f))`. */
  function Present(st: EntryStore.Store, fs: seq<string>): (r: seq<string>)
    ensures forall f :: f in r ==> f in fs && EntryStore.HasFingerprint(st, f)
    ensures forall f :: f in fs && EntryStore.HasFingerprint(st, f) ==> f in r
    ensures |r| <= |fs|
  {
    if fs == [] then []
    else Present(st, fs[..|fs| - 1]) + (if EntryStore.HasFingerprint(st, fs[|fs| - 1]) then [fs[|fs| - 1]] else [])
  }

  /** Filtering a concatenation filters each part, in order. */
  lemma {:induction false} PresentAppend(st: EntryStore.Store, a: seq<string>, b: seq<string>)
    ensures Present(st, a + b) == Present(st, a) + Present(st, b)
    decreases |b|
  {
    if b == [] {
      assert a + b == a;
    } else {
      var b' := b[..|b| - 1];
      var x := b[|b| - 1];
      var tail := if EntryStore.HasFingerprint(st, x) then [x] else [];
      assert (a + b)[..|a + b| - 1] == a + b' && (a + b)[|a + b| - 1] == x;
      assert Present(st, a + b) == Present(st, a + b') + tail;
      PresentAppend(st, a, b');
      assert Present(st, b) == Present(st, b') + tail;
      AppendAssoc(Present(st, a), Present(st, b'), tail);
    }
  }

  /** One fingerprint is kept exactly when the store holds it. */
  lemma {:induction false} PresentOne(st: EntryStore.Store, f: string)
    ensures Present(st, [f]) == if EntryStore.HasFingerprint(st, f) then [f] else []
  {
    assert [f][..0] == [];
  }

  /** The key file of a fingerprint, read at any commit, holds a key with that fingerprint. */
  ghost predicate NamedByFingerprint(resolve: (string, string) -> PubKey) {
    forall commit, f :: Matches(resolve(commit, f), f)
  }

  lemma {:induction false} UpdateKeepsPresence(st: EntryStore.Store, f: string, newKey: PubKey, gs: seq<string>)
    requires st.Valid() && EntryStore.HasFingerprint(st, f) && Matches(newKey, f)
    requires forall g :: g in gs ==> EntryStore.HasFingerprint(st, g)
    ensures forall g :: g in gs ==> EntryStore.HasFingerprint(EntryStore.UpdateKey(st, f, newKey).0, g)
  {
    var st' := EntryStore.UpdateKey(st, f, newKey).0;
    EntryStore.UpdateKeyKeepsLookups(st, f, newKey);
    forall g | g in gs ensures EntryStore.HasFingerprint(st', g) {
      EntryStore.HasFingerprintIff(st, g);
      EntryStore.HasFingerprintIff(st', g);
    }
  }

  /**
   * The modify step: `updatePubKey(f, commit)` for every present
   * fingerprint, in order, each reported with its new upper-cased
   * fingerprint and the user IDs and expiry before and after.
   */
  function UpdateAll(st: EntryStore.Store, fs: seq<string>, commit: string, resolve: (string, string) -> PubKey)
    : (r: (EntryStore.Store, seq<Modification>))
    requires EntryStore.Valid(st) && NamedByFingerprint(resolve)
    requires forall f :: f in fs ==> EntryStore.HasFingerprint(st, f)
    ensures EntryStore.Valid(r.0)
    ensures |r.1| == |fs|
    ensures forall i :: 0 <= i < |fs| ==> r.1[i].fingerprint == ToUpper(resolve(commit, fs[i]).fingerprint)
    decreases |fs|
  {
    if fs == [] then (st, [])
    else
      var newKey := resolve(commit, fs[0]);
      UpdateFirstKeeps(st, fs, newKey);
      var (st1, o, n) := EntryStore.UpdateKey(st, fs[0], newKey);
      var (st2, ms) := UpdateAll(st1, fs[1..], commit, resolve);
      assert forall i :: 0 < i < |fs| ==> fs[i] == fs[1..][i - 1];
      (st2, [ModificationOf(o, n)] + ms)
  }

  /** After the first update the store is still well formed and still holds the fingerprints after it. */
  lemma {:induction false} UpdateFirstKeeps(st: EntryStore.Store, fs: seq<string>, newKey: PubKey)
    requires EntryStore.Valid(st) && fs != [] && Matches(newKey, fs[0])
    requires forall f :: f in fs ==> EntryStore.HasFingerprint(st, f)
    ensures var st1 := EntryStore.UpdateKey(st, fs[0], newKey).0;
      EntryStore.Valid(st1) && forall f :: f in fs[1..] ==> EntryStore.HasFingerprint(st1, f)
  {
    assert fs[0] in fs;
    EntryStore.UpdateKeyCounts(st, fs[0], newKey);
    UpdateKeepsPresence(st, fs[0], newKey, fs[1..]);
  }

  // ---------------------------------------------------------------------
  // The whole hook
  // ---------------------------------------------------------------------

  function RemovedPaths(commits: seq<Commit>): seq<string> {
    if commits == [] then [] else commits[0].removed + RemovedPaths(commits[1..])
  }

  function ModifiedPaths(commits: seq<Commit>): seq<string> {
    if commits == [] then [] else commits[0].modified + ModifiedPaths(commits[1..])
  }

  /** The removal half: the store after it and the "remove" action, if any. */
  function RemovePhase(st: EntryStore.Store, toRemove: seq<string>, isDomain: string -> bool)
    : (r: (EntryStore.Store, seq<Action>))
    requires st.Valid()
    ensures |r.1| <= 1 && forall a :: a in r.1 ==> a.Remove? && a.removed != []
  {
    if |toRemove| > 0 then
      var (st1, removed) := RemoveAll(st, toRemove, isDomain);
      (st1, if |removed| != 0 then [Remove(removed)] else [])
    else (st, [])
  }

  /** The modify half: the store after it and the "modify" action, if any. */
  function ModifyPhase(st: EntryStore.Store, toModify: seq<string>, commit: string, resolve: (string, string) -> PubKey)
    : (r: (EntryStore.Store, seq<Action>))
    requires EntryStore.Valid(st) && NamedByFingerprint(resolve)
    ensures |r.1| <= 1 && forall a :: a in r.1 ==> a.Modify? && a.modified != []
  {
    if |toModify| > 0 then
      var (st2, modified) := UpdateAll(st, Present(st, toModify), commit, resolve);
      (st2, if |modified| != 0 then [Modify(modified)] else [])
    else (st, [])
  }

  function ToRemove(req: Request): seq<string> {
    FilterKeyFiles(RemovedPaths(req.body.commits))
  }

  function ToModify(req: Request): seq<string> {
    FilterKeyFiles(ModifiedPaths(req.body.commits))
  }

  /** `updateHook` on the store `st`: the new store and the response. */
  function Hook(env: HookEnv, isDomain: string -> bool, req: Request, st: EntryStore.Store,
                resolve: (string, string) -> PubKey): (EntryStore.Store, Response)
    requires EntryStore.Valid(st) && NamedByFingerprint(resolve)
  {
    match Gate(env, req)
    case Some(rej) => (st, Rejected(rej))
    case None =>
      var (st1, removeActs) := RemovePhase(st, ToRemove(req), isDomain);
      RemoveAllValid(st, ToRemove(req), isDomain);
      assert EntryStore.Valid(st1);
      var (st2, modifyActs) := ModifyPhase(st1, ToModify(req), req.body.after, resolve);
      (st2, Done(removeActs + modifyActs))
  }

  lemma {:induction false} RemoveAllValid(st: EntryStore.Store, fs: seq<string>, isDomain: string -> bool)
    requires EntryStore.Valid(st)
    ensures EntryStore.Valid(RemoveAll(st, fs, isDomain).0)
    decreases |fs|
  {
    if fs != [] {
      EntryStore.DeleteKeyCounts(st, fs[0]);
      RemoveAllValid(EntryStore.DeleteKey(st, fs[0]).0, fs[1..], isDomain);
    }
  }

  // ---------------------------------------------------------------------
  // What the hook does to the store and what it reports
  // ---------------------------------------------------------------------

  /**
   * The removal report lists exactly the keys that were deleted: one entry
   * per deleted key, each naming the upper-cased form of a requested
   * fingerprint.
   */
  lemma {:induction false} RemoveAllReport(st: EntryStore.Store, fs: seq<string>, isDomain: string -> bool)
    requires EntryStore.Valid(st)
    ensures var (st', rs) := RemoveAll(st, fs, isDomain);
      && EntryStore.KeyCount(st') + |rs| == EntryStore.KeyCount(st)
      && |rs| <= |fs|
      && forall r :: r in rs ==> exists f :: f in fs && r.fingerprint == ToUpper(f)
    decreases |fs|
  {
    if fs != [] {
      EntryStore.DeleteKeyCounts(st, fs[0]);
      var (st1, k) := EntryStore.DeleteKey(st, fs[0]);
      RemoveAllReport(st1, fs[1..], isDomain);
      var rs := RemoveAll(st, fs, isDomain).1;
      forall r | r in rs ensures exists f :: f in fs && r.fingerprint == ToUpper(f) {
        if k.Some? && r == RemovalOf(k.value, isDomain) {
          assert fs[0] in fs;
        } else {
          var f :| f in fs[1..] && r.fingerprint == ToUpper(f);
          assert f in fs;
        }
      }
    }
  }

  /** A fingerprint the store does not hold is passed over and reported nowhere. */
  lemma {:induction false} UnknownFingerprintSkipped(st: EntryStore.Store, fs: seq<string>, isDomain: string -> bool)
    requires st.Valid() && fs != [] && !EntryStore.HasFingerprint(st, fs[0])
    ensures RemoveAll(st, fs, isDomain) == RemoveAll(st, fs[1..], isDomain)
  {
    var d := EntryStore.DeleteKey(st, fs[0]);
    assert d.0 == st && d.1.None?;
    var rest := RemoveAll(st, fs[1..], isDomain);
    assert RemoveAll(st, fs, isDomain) == (rest.0, [] + rest.1);
    assert [] + rest.1 == rest.1;
  }

  /** One fingerprint: the key `deletePubKey` returns is reported, and nothing otherwise. */
  lemma {:induction false} RemoveAllOne(st: EntryStore.Store, f: string, isDomain: string -> bool)
    requires st.Valid()
    ensures var d := EntryStore.DeleteKey(st, f);
      RemoveAll(st, [f], isDomain) == (d.0, if d.1.Some? then [RemovalOf(d.1.value, isDomain)] else [])
  {
    assert [f][1..] == [];
    var d := EntryStore.DeleteKey(st, f);
    var head: seq<Removal> := if d.1.Some? then [RemovalOf(d.1.value, isDomain)] else [];
    assert head + [] == head;
  }

  /**
   * Removing `a + b` removes `a`, then `b` from what is left, and the report
   * is the report of `a` followed by that of `b`: the report lists the
   * deleted keys in the order of the request.
   */
  lemma {:induction false} RemoveAllAppend(st: EntryStore.Store, a: seq<string>, b: seq<string>, isDomain: string -> bool)
    requires st.Valid()
    ensures var ra := RemoveAll(st, a, isDomain);
      var rb := RemoveAll(ra.0, b, isDomain);
      RemoveAll(st, a + b, isDomain) == (rb.0, ra.1 + rb.1)
    decreases |a|
  {
    if a == [] {
      assert a + b == b;
      var rb := RemoveAll(st, b, isDomain);
      assert [] + rb.1 == rb.1;
    } else {
      assert (a + b)[0] == a[0] && (a + b)[1..] == a[1..] + b;
      var d := EntryStore.DeleteKey(st, a[0]);
      var head: seq<Removal> := if d.1.Some? then [RemovalOf(d.1.value, isDomain)] else [];
      RemoveAllAppend(d.0, a[1..], b, isDomain);
      var ra := RemoveAll(d.0, a[1..], isDomain);
      var rb := RemoveAll(ra.0, b, isDomain);
      AppendAssoc(head, ra.1, rb.1);
    }
  }

  /** Removing only shrinks the store: nothing held afterwards was not held before. */
  lemma {:induction false} RemoveAllShrinks(st: EntryStore.Store, fs: seq<string>, isDomain: string -> bool, h: string, g: string)
    requires st.Valid()
    ensures EntryStore.Holds(RemoveAll(st, fs, isDomain).0, h, g) ==> EntryStore.Holds(st, h, g)
    decreases |fs|
  {
    if fs != [] {
      var st1 := EntryStore.DeleteKey(st, fs[0]).0;
      RemoveAllShrinks(st1, fs[1..], isDomain, h, g);
      EntryStore.DeleteKeyOnlyShrinks(st, fs[0], h, g);
    }
  }

  /**
   * With unique fingerprints, after the removals none of the requested
   * fingerprints is in the store, and fingerprints stay unique.
   */
  lemma {:induction false} RemoveAllClears(st: EntryStore.Store, fs: seq<string>, isDomain: string -> bool)
    requires st.Valid() && EntryStore.UniqueFingerprints(st)
    ensures EntryStore.UniqueFingerprints(RemoveAll(st, fs, isDomain).0)
    ensures forall f :: f in fs ==> !EntryStore.HasFingerprint(RemoveAll(st, fs, isDomain).0, f)
    decreases |fs|
  {
    if fs != [] {
      var st1 := EntryStore.DeleteKey(st, fs[0]).0;
      EntryStore.DeleteKeyRemovesFingerprint(st, fs[0]);
      RemoveAllClears(st1, fs[1..], isDomain);
      var st' := RemoveAll(st, fs, isDomain).0;
      assert st' == RemoveAll(st1, fs[1..], isDomain).0;
      EntryStore.HasFingerprintIff(st1, fs[0]);
      EntryStore.HasFingerprintIff(st', fs[0]);
      forall h | EntryStore.Holds(st', h, fs[0]) ensures false {
        RemoveAllShrinks(st1, fs[1..], isDomain, h, fs[0]);
      }
    }
  }

  /**
   * The modify step never creates or removes anything: the entries, their
   * order, the number of keys and every fingerprint lookup stay the same.
   */
  lemma {:induction false} UpdateAllKeeps(st: EntryStore.Store, fs: seq<string>, commit: string,
                                          resolve: (string, string) -> PubKey)
    requires EntryStore.Valid(st) && NamedByFingerprint(resolve)
    requires forall f :: f in fs ==> EntryStore.HasFingerprint(st, f)
    ensures var st' := UpdateAll(st, fs, commit, resolve).0;
      && st'.keys == st.keys
      && EntryStore.KeyCount(st') == EntryStore.KeyCount(st)
      && (forall h, g :: EntryStore.Holds(st', h, g) <==> EntryStore.Holds(st, h, g))
      && (EntryStore.UniqueFingerprints(st) ==> EntryStore.UniqueFingerprints(st'))
    decreases |fs|
  {
    if fs != [] {
      var newKey := resolve(commit, fs[0]);
      EntryStore.UpdateKeyCounts(st, fs[0], newKey);
      EntryStore.UpdateKeyKeepsLookups(st, fs[0], newKey);
      UpdateKeepsPresence(st, fs[0], newKey, fs[1..]);
      UpdateAllKeeps(EntryStore.UpdateKey(st, fs[0], newKey).0, fs[1..], commit, resolve);
    }
  }

  /** The last position in `fs` whose fingerprint is `g`, ignoring case. */
  function LastNamed(fs: seq<string>, g: string): (r: Option<nat>)
    ensures r.Some? ==> && r.value < |fs| && ToUpper(fs[r.value]) == ToUpper(g)
                        && forall j :: r.value < j < |fs| ==> ToUpper(fs[j]) != ToUpper(g)
    ensures r.None? <==> forall j :: 0 <= j < |fs| ==> ToUpper(fs[j]) != ToUpper(g)
  {
    if fs == [] then None
    else match LastNamed(fs[1..], g)
      case Some(j) => Some(j + 1)
      case None => if ToUpper(fs[0]) == ToUpper(g) then Some(0) else None
  }

  /**
   * The key a lookup of `g` should find once `updatePubKey` has run for each
   * of `fs` in order: the key read for the last of them naming `g`, or the
   * key stored before when none names it.
   */
  function KeyAfter(st: EntryStore.Store, fs: seq<string>, commit: string,
                    resolve: (string, string) -> PubKey, g: string): PubKey
    requires EntryStore.HasFingerprint(st, g)
  {
    match LastNamed(fs, g)
    case Some(j) => resolve(commit, fs[j])
    case None => EntryStore.StoredKey(st, g)
  }

  lemma {:induction false} KeyAfterStep(st: EntryStore.Store, fs: seq<string>, commit: string,
                                        resolve: (string, string) -> PubKey, g: string)
    requires EntryStore.Valid(st) && NamedByFingerprint(resolve) && fs != []
    requires EntryStore.HasFingerprint(st, fs[0]) && EntryStore.HasFingerprint(st, g)
    ensures var st1 := EntryStore.UpdateKey(st, fs[0], resolve(commit, fs[0])).0;
      && EntryStore.HasFingerprint(st1, g)
      && KeyAfter(st1, fs[1..], commit, resolve, g) == KeyAfter(st, fs, commit, resolve, g)
  {
    var n := resolve(commit, fs[0]);
    assert Matches(n, fs[0]);
    EntryStore.UpdateKeyStored(st, fs[0], n);
    var st1 := EntryStore.UpdateKey(st, fs[0], n).0;
    if ToUpper(g) == ToUpper(fs[0]) {
      EntryStore.StoredKeyIgnoresCase(st1, fs[0], g);
    }
    KeyAfterCons(st, st1, fs, commit, resolve, g);
  }

  /** A report line computed after the first update, read from the store before it. */
  lemma {:induction false} ReportShift(st: EntryStore.Store, fs: seq<string>, commit: string,
                                       resolve: (string, string) -> PubKey, i: nat, m: Modification)
    requires EntryStore.Valid(st) && NamedByFingerprint(resolve) && 0 < i < |fs|
    requires EntryStore.HasFingerprint(st, fs[0]) && EntryStore.HasFingerprint(st, fs[i])
    requires var st1 := EntryStore.UpdateKey(st, fs[0], resolve(commit, fs[0])).0;
      && EntryStore.HasFingerprint(st1, fs[i])
      && m == ModificationOf(KeyAfter(st1, fs[1..][..i - 1], commit, resolve, fs[i]), resolve(commit, fs[i]))
    ensures m == ModificationOf(KeyAfter(st, fs[..i], commit, resolve, fs[i]), resolve(commit, fs[i]))
  {
    PrefixTail(fs, i);
    KeyAfterStep(st, fs[..i], commit, resolve, fs[i]);
  }

  lemma {:induction false} PrefixTail<T>(s: seq<T>, i: nat)
    requires 0 < i <= |s|
    ensures s[..i] != [] && s[..i][0] == s[0] && s[..i][1..] == s[1..][..i - 1]
  {
  }

  lemma {:induction false} KeyAfterCons(st: EntryStore.Store, st1: EntryStore.Store, fs: seq<string>, commit: string,
                                        resolve: (string, string) -> PubKey, g: string)
    requires fs != [] && EntryStore.HasFingerprint(st, g) && EntryStore.HasFingerprint(st1, g)
    requires EntryStore.StoredKey(st1, g)
      == if ToUpper(fs[0]) == ToUpper(g) then resolve(commit, fs[0]) else EntryStore.StoredKey(st, g)
    ensures KeyAfter(st1, fs[1..], commit, resolve, g) == KeyAfter(st, fs, commit, resolve, g)
  {
    match LastNamed(fs[1..], g)
    case Some(j) =>
      assert fs[1..][j] == fs[j + 1];
    case None =>
  }

  /**
   * What the modify step leaves in the store: a lookup of each fingerprint
   * the store held finds the key read for the last request naming it, and
   * the key it found before when no request names it.
   */
  lemma {:induction false} UpdateAllStores(st: EntryStore.Store, fs: seq<string>, commit: string,
                                           resolve: (string, string) -> PubKey)
    requires EntryStore.Valid(st) && NamedByFingerprint(resolve)
    requires forall f :: f in fs ==> EntryStore.HasFingerprint(st, f)
    ensures var st' := UpdateAll(st, fs, commit, resolve).0;
      forall g :: EntryStore.HasFingerprint(st, g) ==>
        EntryStore.HasFingerprint(st', g) && EntryStore.StoredKey(st', g) == KeyAfter(st, fs, commit, resolve, g)
    decreases |fs|
  {
    if fs != [] {
      assert fs[0] in fs;
      UpdateAllStep(st, fs, commit, resolve);
      var st1 := EntryStore.UpdateKey(st, fs[0], resolve(commit, fs[0])).0;
      UpdateAllStores(st1, fs[1..], commit, resolve);
      forall g | EntryStore.HasFingerprint(st, g)
        ensures EntryStore.HasFingerprint(st1, g)
        ensures KeyAfter(st1, fs[1..], commit, resolve, g) == KeyAfter(st, fs, commit, resolve, g)
      {
        KeyAfterStep(st, fs, commit, resolve, g);
      }
    }
  }

  /**
   * Each line of the modify report pairs the key a lookup found just before
   * that request was handled with the key read from the commit.
   */
  lemma {:induction false} UpdateAllReports(st: EntryStore.Store, fs: seq<string>, commit: string,
                                            resolve: (string, string) -> PubKey)
    requires EntryStore.Valid(st) && NamedByFingerprint(resolve)
    requires forall f :: f in fs ==> EntryStore.HasFingerprint(st, f)
    ensures var ms := UpdateAll(st, fs, commit, resolve).1;
      forall i :: 0 <= i < |fs| ==>
        && EntryStore.HasFingerprint(st, fs[i])
        && ms[i] == ModificationOf(KeyAfter(st, fs[..i], commit, resolve, fs[i]), resolve(commit, fs[i]))
    decreases |fs|
  {
    if fs != [] {
      assert fs[0] in fs;
      UpdateAllStep(st, fs, commit, resolve);
      var st1 := EntryStore.UpdateKey(st, fs[0], resolve(commit, fs[0])).0;
      UpdateAllReports(st1, fs[1..], commit, resolve);
      var u := EntryStore.UpdateKey(st, fs[0], resolve(commit, fs[0]));
      var ms1 := UpdateAll(st1, fs[1..], commit, resolve).1;
      assert UpdateAll(st, fs, commit, resolve).1 == [ModificationOf(u.1, u.2)] + ms1;
      ReportsCons(st, fs, commit, resolve, ms1);
    }
  }

  lemma {:induction false} ReportsCons(st: EntryStore.Store, fs: seq<string>, commit: string,
                                       resolve: (string, string) -> PubKey, ms1: seq<Modification>)
    requires EntryStore.Valid(st) && NamedByFingerprint(resolve) && fs != []
    requires forall f :: f in fs ==> EntryStore.HasFingerprint(st, f)
    requires var st1 := EntryStore.UpdateKey(st, fs[0], resolve(commit, fs[0])).0;
      && |ms1| == |fs| - 1
      && forall i :: 0 <= i < |fs[1..]| ==>
           && EntryStore.HasFingerprint(st1, fs[1..][i])
           && ms1[i] == ModificationOf(KeyAfter(st1, fs[1..][..i], commit, resolve, fs[1..][i]), resolve(commit, fs[1..][i]))
    ensures var ms := [ModificationOf(EntryStore.StoredKey(st, fs[0]), resolve(commit, fs[0]))] + ms1;
      forall i :: 0 <= i < |fs| ==>
        && EntryStore.HasFingerprint(st, fs[i])
        && ms[i] == ModificationOf(KeyAfter(st, fs[..i], commit, resolve, fs[i]), resolve(commit, fs[i]))
  {
    var ms := [ModificationOf(EntryStore.StoredKey(st, fs[0]), resolve(commit, fs[0]))] + ms1;
    forall i | 0 <= i < |fs|
      ensures EntryStore.HasFingerprint(st, fs[i])
      ensures ms[i] == ModificationOf(KeyAfter(st, fs[..i], commit, resolve, fs[i]), resolve(commit, fs[i]))
    {
      assert fs[i] in fs;
      if i == 0 {
        assert fs[..0] == [];
      } else {
        var tail := fs[1..];
        assert tail[i - 1] == fs[i];
        assert ms[i] == ms1[i - 1];
        ReportShift(st, fs, commit, resolve, i, ms1[i - 1]);
      }
    }
  }

  /**
   * An accepted push leaves, for every fingerprint still held after the
   * removals, the key read for the last modified file naming it that the
   * store held, or the key it had.
   */
  lemma {:induction false} HookStores(env: HookEnv, isDomain: string -> bool, req: Request, st: EntryStore.Store,
                                      resolve: (string, string) -> PubKey)
    requires EntryStore.Valid(st) && NamedByFingerprint(resolve) && Gate(env, req).None?
    ensures var st1 := RemoveAll(st, ToRemove(req), isDomain).0;
      var st' := Hook(env, isDomain, req, st, resolve).0;
      && EntryStore.Valid(st1)
      && forall g :: EntryStore.HasFingerprint(st1, g) ==>
           && EntryStore.HasFingerprint(st', g)
           && EntryStore.StoredKey(st', g) == KeyAfter(st1, Present(st1, ToModify(req)), req.body.after, resolve, g)
  {
    RemoveAllValid(st, ToRemove(req), isDomain);
    var st1 := RemoveAll(st, ToRemove(req), isDomain).0;
    assert RemovePhase(st, ToRemove(req), isDomain).0 == st1;
    var present := Present(st1, ToModify(req));
    UpdateAllStores(st1, present, req.body.after, resolve);
    if |ToModify(req)| == 0 {
      assert present == [];
    }
  }

  /**
   * A rejected request leaves the store as it was. An accepted one gets at
   * most two actions, "remove" before "modify", each with at least one key.
   */
  lemma {:induction false} HookResponse(env: HookEnv, isDomain: string -> bool, req: Request, st: EntryStore.Store,
                     resolve: (string, string) -> PubKey)
    requires EntryStore.Valid(st) && NamedByFingerprint(resolve)
    ensures var (st', resp) := Hook(env, isDomain, req, st, resolve);
      && (resp.Rejected? <==> Gate(env, req).Some?)
      && (resp.Rejected? ==> st' == st && resp.rejection == Gate(env, req).value)
      && (resp.Done? ==>
            && |resp.actions| <= 2
            && (forall a :: a in resp.actions ==> (a.Remove? && a.removed != []) || (a.Modify? && a.modified != []))
            && (|resp.actions| == 2 ==> resp.actions[0].Remove? && resp.actions[1].Modify?))
  {
    if Gate(env, req).None? {
      HookActions(env, isDomain, req, st, resolve);
    } else {
      assert Hook(env, isDomain, req, st, resolve) == (st, Rejected(Gate(env, req).value));
    }
  }

  lemma {:induction false} HookActions(env: HookEnv, isDomain: string -> bool, req: Request, st: EntryStore.Store,
                    resolve: (string, string) -> PubKey)
    requires EntryStore.Valid(st) && NamedByFingerprint(resolve) && Gate(env, req).None?
    ensures var resp := Hook(env, isDomain, req, st, resolve).1;
      && resp.Done?
      && |resp.actions| <= 2
      && (forall a :: a in resp.actions ==> (a.Remove? && a.removed != []) || (a.Modify? && a.modified != []))
      && (|resp.actions| == 2 ==> resp.actions[0].Remove? && resp.actions[1].Modify?)
  {
    var (st1, ra) := RemovePhase(st, ToRemove(req), isDomain);
    RemoveAllValid(st, ToRemove(req), isDomain);
    var (st2, ma) := ModifyPhase(st1, ToModify(req), req.body.after, resolve);
    assert Hook(env, isDomain, req, st, resolve).1 == Done(ra + ma);
    assert forall a :: a in ra + ma ==> a in ra || a in ma;
    assert |ra + ma| == 2 ==> (ra + ma)[0] == ra[0] && (ra + ma)[1] == ma[0];
  }

  /** The modify step reports only fingerprints the store holds when it starts. */
  lemma {:induction false} ModifyPhaseReports(st: EntryStore.Store, toModify: seq<string>, commit: string,
                           resolve: (string, string) -> PubKey, f: string)
    requires EntryStore.Valid(st) && NamedByFingerprint(resolve) && !EntryStore.HasFingerprint(st, f)
    ensures forall a, i ::
      a in ModifyPhase(st, toModify, commit, resolve).1 && a.Modify? && 0 <= i < |a.modified| ==>
      a.modified[i].fingerprint != ToUpper(f)
  {
    var present := Present(st, toModify);
    var ms := UpdateAll(st, present, commit, resolve).1;
    forall i | 0 <= i < |ms| ensures ms[i].fingerprint != ToUpper(f) {
      var g := present[i];
      assert g in present;
      if ToUpper(g) == ToUpper(f) {
        EntryStore.FindEntryKeyIgnoresCase(st, g);
        EntryStore.FindEntryKeyIgnoresCase(st, f);
      }
    }
  }

  /**
   * With unique fingerprints, a fingerprint whose key file the push removed
   * is not among the modified keys: all removals finish before the modify
   * filter runs. Fingerprints stay unique.
   */
  lemma {:induction false} RemovedNotModified(env: HookEnv, isDomain: string -> bool, req: Request, st: EntryStore.Store,
                           resolve: (string, string) -> PubKey)
    requires EntryStore.Valid(st) && NamedByFingerprint(resolve) && EntryStore.UniqueFingerprints(st)
    ensures var (st', resp) := Hook(env, isDomain, req, st, resolve);
      && EntryStore.UniqueFingerprints(st')
      && (resp.Done? ==>
            forall a, i, f ::
              a in resp.actions && a.Modify? && 0 <= i < |a.modified| && f in ToRemove(req) ==>
              a.modified[i].fingerprint != ToUpper(f))
  {
    if Gate(env, req).None? {
      var toRemove := ToRemove(req);
      var (st1, removeActs) := RemovePhase(st, toRemove, isDomain);
      RemoveAllValid(st, toRemove, isDomain);
      RemoveAllClears(st, toRemove, isDomain);
      UpdateAllKeeps(st1, Present(st1, ToModify(req)), req.body.after, resolve);
      var modifyActs := ModifyPhase(st1, ToModify(req), req.body.after, resolve).1;
      forall a, i, f | a in removeActs + modifyActs && a.Modify? && 0 <= i < |a.modified| && f in toRemove
        ensures a.modified[i].fingerprint != ToUpper(f)
      {
        ModifyPhaseReports(st1, ToModify(req), req.body.after, resolve, f);
      }
    }
  }

  lemma {:induction false} RemovedPathsOutside(commits: seq<Commit>)
    requires forall i, j :: 0 <= i < |commits| && 0 <= j < |commits[i].removed| ==> !StartsWith(commits[i].removed[j], "keys/")
    ensures FilterKeyFiles(RemovedPaths(commits)) == []
  {
    if commits != [] {
      RemovedPathsOutside(commits[1..]);
      OtherPathsDropped(commits[0].removed);
      FilterKeyFilesAppend(commits[0].removed, RemovedPaths(commits[1..]));
    }
  }

  lemma {:induction false} ModifiedPathsOutside(commits: seq<Commit>)
    requires forall i, j :: 0 <= i < |commits| && 0 <= j < |commits[i].modified| ==> !StartsWith(commits[i].modified[j], "keys/")
    ensures FilterKeyFiles(ModifiedPaths(commits)) == []
  {
    if commits != [] {
      ModifiedPathsOutside(commits[1..]);
      OtherPathsDropped(commits[0].modified);
      FilterKeyFilesAppend(commits[0].modified, ModifiedPaths(commits[1..]));
    }
  }

  /**
   * A push that touches nothing under "keys/" (only "map.txt", say) changes
   * nothing and reports no action: the full resync is not implemented.
   */
  lemma {:induction false} OtherPushesChangeNothing(env: HookEnv, isDomain: string -> bool, req: Request, st: EntryStore.Store,
                                 resolve: (string, string) -> PubKey)
    requires EntryStore.Valid(st) && NamedByFingerprint(resolve) && Gate(env, req).None?
    requires forall i, j ::
      0 <= i < |req.body.commits| && 0 <= j < |req.body.commits[i].removed| ==>
      !StartsWith(req.body.commits[i].removed[j], "keys/")
    requires forall i, j ::
      0 <= i < |req.body.commits| && 0 <= j < |req.body.commits[i].modified| ==>
      !StartsWith(req.body.commits[i].modified[j], "keys/")
    ensures Hook(env, isDomain, req, st, resolve) == (st, Done([]))
  {
    RemovedPathsOutside(req.body.commits);
    ModifiedPathsOutside(req.body.commits);
    assert RemovePhase(st, ToRemove(req), isDomain) == (st, []);
    assert ModifyPhase(st, ToModify(req), req.body.after, resolve) == (st, []);
    var none: seq<Action> := [];
    assert none + none == none;
  }

  // ---------------------------------------------------------------------
  // The handler
  // ---------------------------------------------------------------------

  lemma {:induction false} AppendAssoc<T>(a: seq<T>, b: seq<T>, c: seq<T>)
    ensures a + (b + c) == (a + b) + c
  {
  }

  /** One step of the removal fold. */
  lemma {:induction false} RemoveAllStep(st: EntryStore.Store, fs: seq<string>, isDomain: string -> bool)
    requires st.Valid() && fs != []
    ensures var d := EntryStore.DeleteKey(st, fs[0]);
      var rest := RemoveAll(d.0, fs[1..], isDomain);
      RemoveAll(st, fs, isDomain) == (rest.0, (if d.1.Some? then [RemovalOf(d.1.value, isDomain)] else []) + rest.1)
  {
  }

  /** One step of the modify fold. */
  lemma {:induction false} UpdateAllStep(st: EntryStore.Store, fs: seq<string>, commit: string, resolve: (string, string) -> PubKey)
    requires EntryStore.Valid(st) && NamedByFingerprint(resolve) && fs != []
    requires forall f :: f in fs ==> EntryStore.HasFingerprint(st, f)
    ensures var st1 := EntryStore.UpdateKey(st, fs[0], resolve(commit, fs[0])).0;
      EntryStore.Valid(st1) && forall f :: f in fs[1..] ==> EntryStore.HasFingerprint(st1, f)
    ensures var u := EntryStore.UpdateKey(st, fs[0], resolve(commit, fs[0]));
      var rest := UpdateAll(u.0, fs[1..], commit, resolve);
      UpdateAll(st, fs, commit, resolve) == (rest.0, [ModificationOf(u.1, u.2)] + rest.1)
  {
    UpdateFirstKeeps(st, fs, resolve(commit, fs[0]));
  }

  /** The removal fold after one more `deletePubKey`, as the loop below performs it. */
  lemma {:induction false} RemoveAllAdvance(st0: EntryStore.Store, cur: EntryStore.Store, fs: seq<string>, i: nat,
                         removed: seq<Removal>, isDomain: string -> bool)
    requires st0.Valid() && cur.Valid() && i < |fs|
    requires RemoveAll(st0, fs, isDomain)
      == (RemoveAll(cur, fs[i..], isDomain).0, removed + RemoveAll(cur, fs[i..], isDomain).1)
    ensures var d := EntryStore.DeleteKey(cur, fs[i]);
      var removed' := if d.1.Some? then removed + [RemovalOf(d.1.value, isDomain)] else removed;
      RemoveAll(st0, fs, isDomain)
        == (RemoveAll(d.0, fs[i + 1..], isDomain).0, removed' + RemoveAll(d.0, fs[i + 1..], isDomain).1)
  {
    var d := EntryStore.DeleteKey(cur, fs[i]);
    var head := if d.1.Some? then [RemovalOf(d.1.value, isDomain)] else [];
    var rest := RemoveAll(d.0, fs[i + 1..], isDomain);
    assert fs[i..][0] == fs[i] && fs[i..][1..] == fs[i + 1..];
    RemoveAllStep(cur, fs[i..], isDomain);
    AppendAssoc(removed, head, rest.1);
    assert head == [] ==> removed + head == removed;
  }

  /** The removal `reduce` against the live store: `deletePubKey` for each fingerprint, in order. */
  method RemoveKeys(wkd: WKDEntryManager, toRemove: seq<string>, isDomain: string -> bool)
    returns (removed: seq<Removal>)
    requires wkd.Valid()
    modifies wkd
    ensures wkd.Valid()
    ensures (wkd.store, removed) == RemoveAll(old(wkd.store), toRemove, isDomain)
  {
    ghost var st0 := wkd.store;
    removed := [];
    var i := 0;
    assert toRemove[i..] == toRemove;
    assert removed + RemoveAll(st0, toRemove, isDomain).1 == RemoveAll(st0, toRemove, isDomain).1;
    while i < |toRemove|
      invariant 0 <= i <= |toRemove|
      invariant wkd.Valid()
      invariant RemoveAll(st0, toRemove, isDomain)
        == (RemoveAll(wkd.store, toRemove[i..], isDomain).0, removed + RemoveAll(wkd.store, toRemove[i..], isDomain).1)
    {
      RemoveAllAdvance(st0, wkd.store, toRemove, i, removed, isDomain);
      var k := wkd.DeletePubKey(toRemove[i]);
      if k.Some? {
        removed := removed + [RemovalOf(k.value, isDomain)];
      }
      i := i + 1;
    }
    assert toRemove[i..] == [];
    assert removed + [] == removed;
  }

  /** `toModify.filter(f => wkd.hasPubKey(f))` against the live store. */
  method FilterPresent(wkd: WKDEntryManager, toModify: seq<string>) returns (present: seq<string>)
    requires wkd.Valid()
    ensures present == Present(wkd.store, toModify)
  {
    present := [];
    var j := 0;
    while j < |toModify|
      invariant 0 <= j <= |toModify|
      invariant present == Present(wkd.store, toModify[..j])
    {
      var held := wkd.HasFingerprint(toModify[j]);
      assert toModify[..j + 1][..j] == toModify[..j];
      if held {
        present := present + [toModify[j]];
      }
      j := j + 1;
    }
    assert toModify[..|toModify|] == toModify;
  }

  /** The modify `map`: `updatePubKey(f, commit)` for each present fingerprint, in order. */
  method UpdateKeys(wkd: WKDEntryManager, present: seq<string>, commit: string,
                    resolve: (string, string) -> PubKey) returns (modified: seq<Modification>)
    requires wkd.Valid() && NamedByFingerprint(resolve)
    requires forall f :: f in present ==> EntryStore.HasFingerprint(wkd.store, f)
    modifies wkd
    ensures wkd.Valid()
    ensures (wkd.store, modified) == UpdateAll(old(wkd.store), present, commit, resolve)
  {
    ghost var st0 := wkd.store;
    modified := [];
    var k := 0;
    assert present[k..] == present;
    assert modified + UpdateAll(st0, present, commit, resolve).1 == UpdateAll(st0, present, commit, resolve).1;
    while k < |present|
      invariant 0 <= k <= |present|
      invariant wkd.Valid()
      invariant forall f :: f in present[k..] ==> EntryStore.HasFingerprint(wkd.store, f)
      invariant UpdateAll(st0, present, commit, resolve)
        == (UpdateAll(wkd.store, present[k..], commit, resolve).0,
            modified + UpdateAll(wkd.store, present[k..], commit, resolve).1)
    {
      ghost var cur := wkd.store;
      assert present[k] in present[k..];
      assert present[k..][0] == present[k] && present[k..][1..] == present[k + 1..];
      UpdateKeepsPresence(cur, present[k], resolve(commit, present[k]), present[k + 1..]);
      UpdateAllStep(cur, present[k..], commit, resolve);
      var oldKey, newKey := wkd.UpdatePubKey(present[k], commit, resolve);
      ghost var rest := UpdateAll(wkd.store, present[k + 1..], commit, resolve);
      var m := ModificationOf(oldKey, newKey);
      assert UpdateAll(cur, present[k..], commit, resolve) == (rest.0, [m] + rest.1);
      AppendAssoc(modified, [m], rest.1);
      modified := modified + [m];
      k := k + 1;
    }
    assert present[k..] == [];
    assert modified + [] == modified;
  }

  /**
   * `updateHook` against the live store of `wkd`: `resolve` reads a key
   * file at a commit. The store ends as `Hook` says and the response is
   * the one `Hook` gives.
   */
  method Handle(env: HookEnv, isDomain: string -> bool, req: Request, wkd: WKDEntryManager,
                resolve: (string, string) -> PubKey) returns (resp: Response)
    requires wkd.Valid() && NamedByFingerprint(resolve)
    modifies wkd
    ensures wkd.Valid()
    ensures (wkd.store, resp) == Hook(env, isDomain, req, old(wkd.store), resolve)
  {
    var rejection := Gate(env, req);
    if rejection.Some? {
      return Rejected(rejection.value);
    }
    var toRemove := ToRemove(req);
    var toModify := ToModify(req);
    var commit := req.body.after;
    ghost var st0 := wkd.store;

    var removeActs: seq<Action> := [];
    if |toRemove| > 0 {
      var removed := RemoveKeys(wkd, toRemove, isDomain);
      if |removed| != 0 {
        removeActs := [Remove(removed)];
      }
    }
    assert (wkd.store, removeActs) == RemovePhase(st0, toRemove, isDomain);

    ghost var st1 := wkd.store;
    var modifyActs: seq<Action> := [];
    if |toModify| > 0 {
      var present := FilterPresent(wkd, toModify);
      var modified := UpdateKeys(wkd, present, commit, resolve);
      if |modified| != 0 {
        modifyActs := [Modify(modified)];
      }
    }
    assert (wkd.store, modifyActs) == ModifyPhase(st1, toModify, commit, resolve);
    resp := Done(removeActs + modifyActs);
  }
}
