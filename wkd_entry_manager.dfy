/**
 * `WKDEntryManager`: reads the manifest into raw entries (`getKeysURL`),
 * loads each entry's keys into the store (`loadKeys`), and looks keys up
 * by fingerprint. It also carries the store operations the push hook calls.
 */
module WKDEntries {
  import opened Wrappers
  import opened Keys
  import opened OrderedMaps
  import opened Manifest
  import EntryStore

  /** What `getKeysURL` collects per WKD hash: the user IDs and the key file URLs. */
  datatype EntryRaw = EntryRaw(uid: seq<string>, files: seq<Url>)

  datatype LoadError =
    | NoPublicKeys(uid: string, entry: string)  // "No public keys found for UID <uid> / Entry <entry>"
    | FetchFailed(entry: string)                // a key of this entry could not be fetched or read

  // ---------------------------------------------------------------------
  // getKeysURL
  // ---------------------------------------------------------------------

  /** `.map(pubKeyURL)`. */
  function Urls(files: seq<string>): (r: seq<Url>)
    ensures |r| == |files|
    ensures forall i :: 0 <= i < |files| ==> r[i] == KeyFileUrl(files[i])
  {
    seq(|files|, i requires 0 <= i < |files| => KeyFileUrl(files[i]))
  }

  /** One pass of the `getKeysURL` loop over the match `g`. */
  function AddGroup(result: OMap<EntryRaw>, g: Group, isDomain: string -> bool): Result<OMap<EntryRaw>, LoadError>
  {
    if !isDomain(g.uid) then Ok(result)
    else
      var urls := Urls(ExtractFiles(Capture(g.files)));
      if |urls| == 0 then Err(NoPublicKeys(g.uid, g.hash))
      else if g.hash in result.values then
        var data := result.values[g.hash];
        Ok(result.Put(g.hash, EntryRaw(data.uid + [g.hash], data.files + urls)))
      else Ok(result.Put(g.hash, EntryRaw([g.uid], urls)))
  }

  /** The result of `getKeysURL` after the matches `gs`, in order. */
  function KeysFrom(gs: seq<Group>, isDomain: string -> bool): Result<OMap<EntryRaw>, LoadError>
  {
    if gs == [] then Ok(Empty())
    else match KeysFrom(gs[..|gs| - 1], isDomain)
      case Err(e) => Err(e)
      case Ok(m) => AddGroup(m, gs[|gs| - 1], isDomain)
  }

  function KeysURL(manifest: string, isDomain: string -> bool): Result<OMap<EntryRaw>, LoadError> {
    KeysFrom(Groups(Tokenize(manifest)), isDomain)
  }

  /** `getKeysURL`, given the fetched manifest text and the domain filter. */
  method GetKeysURL(manifest: string, isDomain: string -> bool) returns (r: Result<OMap<EntryRaw>, LoadError>)
    ensures r == KeysURL(manifest, isDomain)
  {
    var gs := ScanGroups(Tokenize(manifest));
    var result: OMap<EntryRaw> := Empty();
    var i := 0;
    while i < |gs|
      invariant 0 <= i <= |gs|
      invariant KeysFrom(gs[..i], isDomain) == Ok(result)
    {
      var g := gs[i];
      KeysFromSnoc(gs, i, isDomain);
      if isDomain(g.uid) {
        var urls := Urls(ExtractFiles(Capture(g.files)));
        if |urls| == 0 {
          KeysFromErrSticky(gs, i + 1, isDomain);
          return Err(NoPublicKeys(g.uid, g.hash));
        }
        if g.hash in result.values {
          var data := result.values[g.hash];
          result := result.Put(g.hash, EntryRaw(data.uid + [g.hash], data.files + urls));
        } else {
          result := result.Put(g.hash, EntryRaw([g.uid], urls));
        }
      }
      i := i + 1;
    }
    assert gs[..|gs|] == gs;
    return Ok(result);
  }

  /** One more pass of the `getKeysURL` loop, after the passes before it all succeeded. */
  lemma {:induction false} KeysFromSnoc(gs: seq<Group>, i: nat, isDomain: string -> bool)
    requires i < |gs| && KeysFrom(gs[..i], isDomain).Ok?
    ensures KeysFrom(gs[..i + 1], isDomain) == AddGroup(KeysFrom(gs[..i], isDomain).value, gs[i], isDomain)
  {
    assert gs[..i + 1][..i] == gs[..i];
  }

  /** Once a prefix of the matches fails, the whole scan fails with the same error. */
  lemma {:induction false} KeysFromErrSticky(gs: seq<Group>, i: nat, isDomain: string -> bool)
    requires i <= |gs| && KeysFrom(gs[..i], isDomain).Err?
    ensures KeysFrom(gs, isDomain) == KeysFrom(gs[..i], isDomain)
    decreases |gs| - i
  {
    if i < |gs| {
      assert gs[..i + 1][..i] == gs[..i];
      KeysFromErrSticky(gs, i + 1, isDomain);
    } else {
      assert gs[..i] == gs;
    }
  }

  // A reference description of the result, match by match.

  /** The matches whose UID passes the domain filter, in order. */
  function Accepted(gs: seq<Group>, isDomain: string -> bool): seq<Group>
  {
    if gs == [] then []
    else Accepted(gs[..|gs| - 1], isDomain) + (if isDomain(gs[|gs| - 1].uid) then [gs[|gs| - 1]] else [])
  }

  /** The matches for WKD hash `h`, in order. */
  function WithHash(gs: seq<Group>, h: string): seq<Group>
  {
    if gs == [] then []
    else WithHash(gs[..|gs| - 1], h) + (if gs[|gs| - 1].hash == h then [gs[|gs| - 1]] else [])
  }

  /** The key file URLs of the matches, concatenated in order. */
  function AllUrls(gs: seq<Group>): seq<Url> {
    if gs == [] then [] else AllUrls(gs[..|gs| - 1]) + Urls(gs[|gs| - 1].files)
  }

  function Repeat(s: string, n: nat): (r: seq<string>)
    ensures |r| == n && forall i :: 0 <= i < n ==> r[i] == s
  {
    if n == 0 then [] else Repeat(s, n - 1) + [s]
  }

  /**
   * The raw entry the matches `hs` for hash `h` add up to: the first match's
   * UID followed by the hash once for every later match, and all their files.
   */
  function Expected(hs: seq<Group>, h: string): EntryRaw
    requires hs != []
  {
    EntryRaw([hs[0].uid] + Repeat(h, |hs| - 1), AllUrls(hs))
  }

  /** An accepted match without key files. */
  predicate NoFiles(g: Group, isDomain: string -> bool) {
    isDomain(g.uid) && g.files == []
  }

  /** A match whose UID fails the domain filter leaves the result as it was. */
  lemma {:induction false} RejectedGroupIgnored(gs: seq<Group>, g: Group, isDomain: string -> bool)
    requires !isDomain(g.uid)
    ensures KeysFrom(gs + [g], isDomain) == KeysFrom(gs, isDomain)
  {
    assert (gs + [g])[..|gs|] == gs;
  }

  /**
   * The scan fails exactly when an accepted match has no key files, and the
   * error names the UID and the hash of the first such match.
   */
  lemma {:induction false} KeysFromFails(gs: seq<Group>, isDomain: string -> bool)
    ensures KeysFrom(gs, isDomain).Err? <==> exists i :: 0 <= i < |gs| && NoFiles(gs[i], isDomain)
    ensures KeysFrom(gs, isDomain).Err? ==>
      exists i :: && 0 <= i < |gs| && NoFiles(gs[i], isDomain)
                  && (forall j :: 0 <= j < i ==> !NoFiles(gs[j], isDomain))
                  && KeysFrom(gs, isDomain).error == NoPublicKeys(gs[i].uid, gs[i].hash)
  {
    if gs != [] {
      var init := gs[..|gs| - 1];
      var g := gs[|gs| - 1];
      KeysFromFails(init, isDomain);
      ExtractFilesOfCapture(g.files);
      assert forall j :: 0 <= j < |init| ==> init[j] == gs[j];
      if KeysFrom(init, isDomain).Ok? && NoFiles(g, isDomain) {
        assert KeysFrom(gs, isDomain).error == NoPublicKeys(gs[|gs| - 1].uid, gs[|gs| - 1].hash);
      }
    }
  }

  lemma {:induction false} AllUrlsSingle(g: Group)
    ensures AllUrls([g]) == Urls(g.files)
  {
    assert [g][..0] == [];
  }

  lemma {:induction false} ExpectedGrows(hs: seq<Group>, g: Group, h: string)
    requires hs != []
    ensures (hs + [g])[..|hs|] == hs
    ensures Expected(hs + [g], h) == EntryRaw(Expected(hs, h).uid + [h], Expected(hs, h).files + Urls(g.files))
  {
    assert (hs + [g])[..|hs|] == hs;
    assert Repeat(h, |hs|) == Repeat(h, |hs| - 1) + [h];
  }

  /** `m` is the result the accepted matches `A` add up to. */
  ghost predicate Describes(m: OMap<EntryRaw>, A: seq<Group>) {
    m.Valid() && forall h :: DescribesAt(m, A, h)
  }

  lemma {:induction false} WithHashSnoc(A: seq<Group>, g: Group, h: string)
    ensures WithHash(A + [g], h) == WithHash(A, h) + (if g.hash == h then [g] else [])
  {
    assert (A + [g])[..|A|] == A;
  }

  /** `m` holds what the accepted matches `A` add up to for hash `h`. */
  ghost predicate DescribesAt(m: OMap<EntryRaw>, A: seq<Group>, h: string) {
    && (h in m.values <==> WithHash(A, h) != [])
    && (h in m.values ==> m.values[h] == Expected(WithHash(A, h), h))
  }

  lemma {:induction false} DescribesOtherHash(m0: OMap<EntryRaw>, A0: seq<Group>, g: Group, v: EntryRaw, h: string)
    requires h != g.hash && DescribesAt(m0, A0, h)
    ensures DescribesAt(m0.Put(g.hash, v), A0 + [g], h)
  {
    WithHashSnoc(A0, g, h);
    assert WithHash(A0 + [g], h) == WithHash(A0, h);
  }

  lemma {:induction false} DescribesFirstHash(m0: OMap<EntryRaw>, A0: seq<Group>, g: Group)
    requires DescribesAt(m0, A0, g.hash) && g.hash !in m0.values
    ensures DescribesAt(m0.Put(g.hash, EntryRaw([g.uid], Urls(g.files))), A0 + [g], g.hash)
  {
    WithHashSnoc(A0, g, g.hash);
    AllUrlsSingle(g);
    assert WithHash(A0 + [g], g.hash) == [g];
    assert Repeat(g.hash, 0) == [];
    assert Expected([g], g.hash) == EntryRaw([g.uid], Urls(g.files));
  }

  lemma {:induction false} DescribesMergedHash(m0: OMap<EntryRaw>, A0: seq<Group>, g: Group)
    requires DescribesAt(m0, A0, g.hash) && g.hash in m0.values
    ensures var data := m0.values[g.hash];
      DescribesAt(m0.Put(g.hash, EntryRaw(data.uid + [g.hash], data.files + Urls(g.files))), A0 + [g], g.hash)
  {
    WithHashSnoc(A0, g, g.hash);
    ExpectedGrows(WithHash(A0, g.hash), g, g.hash);
  }

  lemma {:induction false} DescribesPut(m0: OMap<EntryRaw>, A0: seq<Group>, g: Group, v: EntryRaw)
    requires Describes(m0, A0)
    requires g.hash !in m0.values ==> v == EntryRaw([g.uid], Urls(g.files))
    requires g.hash in m0.values ==>
      v == EntryRaw(m0.values[g.hash].uid + [g.hash], m0.values[g.hash].files + Urls(g.files))
    ensures Describes(m0.Put(g.hash, v), A0 + [g])
  {
    forall h ensures DescribesAt(m0.Put(g.hash, v), A0 + [g], h) {
      assert DescribesAt(m0, A0, h);
      if h != g.hash {
        DescribesOtherHash(m0, A0, g, v, h);
      } else if g.hash in m0.values {
        DescribesMergedHash(m0, A0, g);
      } else {
        DescribesFirstHash(m0, A0, g);
      }
    }
  }

  lemma {:induction false} AddGroupDescribes(m0: OMap<EntryRaw>, A0: seq<Group>, g: Group, isDomain: string -> bool)
    requires Describes(m0, A0) && AddGroup(m0, g, isDomain).Ok?
    ensures Describes(AddGroup(m0, g, isDomain).value, A0 + (if isDomain(g.uid) then [g] else []))
  {
    if isDomain(g.uid) {
      ExtractFilesOfCapture(g.files);
      var v := if g.hash in m0.values
        then EntryRaw(m0.values[g.hash].uid + [g.hash], m0.values[g.hash].files + Urls(g.files))
        else EntryRaw([g.uid], Urls(g.files));
      DescribesPut(m0, A0, g, v);
    } else {
      assert A0 + [] == A0;
    }
  }

  /**
   * On success, the result holds exactly the hashes of the accepted
   * matches, and each hash maps to the entry its matches add up to.
   */
  lemma {:induction false} KeysFromEntries(gs: seq<Group>, isDomain: string -> bool)
    requires KeysFrom(gs, isDomain).Ok?
    ensures Describes(KeysFrom(gs, isDomain).value, Accepted(gs, isDomain))
  {
    if gs != [] {
      var init := gs[..|gs| - 1];
      KeysFromEntries(init, isDomain);
      AddGroupDescribes(KeysFrom(init, isDomain).value, Accepted(init, isDomain), gs[|gs| - 1], isDomain);
    }
  }

  /** On success every raw entry has at least one user ID and at least one key file. */
  lemma {:induction false} KeysFromNonEmpty(gs: seq<Group>, isDomain: string -> bool)
    requires KeysFrom(gs, isDomain).Ok?
    ensures forall h :: h in KeysFrom(gs, isDomain).value.values ==>
      KeysFrom(gs, isDomain).value.values[h].uid != [] && KeysFrom(gs, isDomain).value.values[h].files != []
  {
    if gs != [] {
      KeysFromNonEmpty(gs[..|gs| - 1], isDomain);
      ExtractFilesOfCapture(gs[|gs| - 1].files);
    }
  }

  ghost predicate AcceptedHash(gs: seq<Group>, h: string, isDomain: string -> bool) {
    exists i :: 0 <= i < |gs| && isDomain(gs[i].uid) && gs[i].hash == h
  }

  lemma {:induction false} AcceptedHashSnoc(init: seq<Group>, g: Group, h: string, isDomain: string -> bool)
    ensures AcceptedHash(init + [g], h, isDomain) <==>
      AcceptedHash(init, h, isDomain) || (isDomain(g.uid) && g.hash == h)
  {
    var gs := init + [g];
    if AcceptedHash(gs, h, isDomain) && !(isDomain(g.uid) && g.hash == h) {
      var i :| 0 <= i < |gs| && isDomain(gs[i].uid) && gs[i].hash == h;
      assert init[i] == gs[i];
    }
    if AcceptedHash(init, h, isDomain) {
      var i :| 0 <= i < |init| && isDomain(init[i].uid) && init[i].hash == h;
      assert init[i] == gs[i];
    }
    if isDomain(g.uid) && g.hash == h {
      assert gs[|init|] == g;
    }
  }

  lemma {:induction false} AcceptedWithHash(gs: seq<Group>, h: string, isDomain: string -> bool)
    ensures WithHash(Accepted(gs, isDomain), h) != [] <==> AcceptedHash(gs, h, isDomain)
  {
    if gs != [] {
      var init := gs[..|gs| - 1];
      var g := gs[|gs| - 1];
      var A0 := Accepted(init, isDomain);
      AcceptedWithHash(init, h, isDomain);
      assert gs == init + [g];
      AcceptedHashSnoc(init, g, h, isDomain);
      if isDomain(g.uid) {
        assert Accepted(gs, isDomain) == A0 + [g];
        WithHashSnoc(A0, g, h);
      } else {
        assert Accepted(gs, isDomain) == A0 + [] == A0;
      }
    }
  }

  /** On success the result's hashes are exactly those of the accepted matches; nothing else is added. */
  lemma {:induction false} ResultHashes(gs: seq<Group>, isDomain: string -> bool)
    requires KeysFrom(gs, isDomain).Ok?
    ensures forall h :: h in KeysFrom(gs, isDomain).value.values <==> AcceptedHash(gs, h, isDomain)
  {
    KeysFromEntries(gs, isDomain);
    var m := KeysFrom(gs, isDomain).value;
    forall h ensures h in m.values <==> AcceptedHash(gs, h, isDomain) {
      assert DescribesAt(m, Accepted(gs, isDomain), h);
      AcceptedWithHash(gs, h, isDomain);
    }
  }

  // ---------------------------------------------------------------------
  // loadKeys
  // ---------------------------------------------------------------------

  /**
   * `Promise.all` over the entry's files: fetch and read every key, in file
   * order; one failure rejects the whole entry.
   */
  function ResolveAll(urls: seq<Url>, fetch: Url -> Option<PubKey>): (r: Option<seq<PubKey>>)
    ensures r.Some? ==> |r.value| == |urls| && forall i :: 0 <= i < |urls| ==> fetch(urls[i]) == Some(r.value[i])
    ensures r.None? <==> exists i :: 0 <= i < |urls| && fetch(urls[i]).None?
  {
    if urls == [] then Some([])
    else match fetch(urls[0])
      case None => None
      case Some(k) =>
        match ResolveAll(urls[1..], fetch)
        case None => None
        case Some(ks) => Some([k] + ks)
  }

  /** The entry `loadKeys` stores for a raw entry whose keys all resolve. */
  function Loaded(raw: EntryRaw, keys: seq<PubKey>): EntryStore.Entry {
    EntryStore.Entry(raw.uid, SortNewestFirst(keys))
  }

  /** The store after the `loadKeys` loop has visited the hashes `hs`, and whether it stopped early. */
  function Install(st: EntryStore.Store, hs: seq<string>, raws: map<string, EntryRaw>, fetch: Url -> Option<PubKey>)
    : (r: (EntryStore.Store, Result<(), LoadError>))
    requires forall h :: h in hs ==> h in raws
  {
    if hs == [] then (st, Ok(()))
    else
      var (s0, res) := Install(st, hs[..|hs| - 1], raws, fetch);
      var h := hs[|hs| - 1];
      if res.Err? then (s0, res)
      else match ResolveAll(raws[h].files, fetch)
        case None => (s0, Err(FetchFailed(h)))
        case Some(ks) => (s0.Put(h, Loaded(raws[h], ks)), Ok(()))
  }

  /** `loadKeys`: read the manifest, then set every entry it names. */
  function Load(st: EntryStore.Store, manifest: string, isDomain: string -> bool, fetch: Url -> Option<PubKey>)
    : (EntryStore.Store, Result<(), LoadError>)
  {
    match KeysURL(manifest, isDomain)
    case Err(e) => (st, Err(e))
    case Ok(raw) =>
      KeysFromEntries(Groups(Tokenize(manifest)), isDomain);
      Install(st, raw.keys, raw.values, fetch)
  }

  lemma {:induction false} InstallErrSticky(st: EntryStore.Store, hs: seq<string>, raws: map<string, EntryRaw>,
                                            fetch: Url -> Option<PubKey>, i: nat)
    requires forall h :: h in hs ==> h in raws
    requires i <= |hs| && Install(st, hs[..i], raws, fetch).1.Err?
    ensures Install(st, hs, raws, fetch) == Install(st, hs[..i], raws, fetch)
    decreases |hs| - i
  {
    if i < |hs| {
      var p := hs[..i + 1];
      assert p[..|p| - 1] == hs[..i];
      assert forall h :: h in p ==> h in hs;
      assert Install(st, p, raws, fetch) == Install(st, hs[..i], raws, fetch);
      InstallErrSticky(st, hs, raws, fetch, i + 1);
    } else {
      assert hs[..i] == hs;
    }
  }

  /** Entry `h` of `st'` is what `loadKeys` makes of `raw`. */
  ghost predicate Installed(st': EntryStore.Store, h: string, raw: EntryRaw, fetch: Url -> Option<PubKey>) {
    && ResolveAll(raw.files, fetch).Some?
    && h in st'.values
    && st'.values[h] == Loaded(raw, ResolveAll(raw.files, fetch).value)
  }

  /**
   * What the `loadKeys` loop does to the store: nothing is removed; hashes
   * it does not visit keep their entries; a visited hash either keeps its
   * old entry (the loop stopped before it) or holds the raw entry's user IDs
   * and its keys, one per file, newest first; when the loop completes every
   * visited hash is set. A failure names a hash whose keys did not resolve.
   */
  lemma {:induction false} InstallEffect(st: EntryStore.Store, hs: seq<string>, raws: map<string, EntryRaw>,
                                         fetch: Url -> Option<PubKey>)
    requires forall h :: h in hs ==> h in raws
    ensures var (st', res) := Install(st, hs, raws, fetch);
      && (st.Valid() ==> st'.Valid())
      && (forall h :: h in st.values ==> h in st'.values)
      && (forall h :: h !in hs ==> (h in st'.values <==> h in st.values))
      && (forall h :: h !in hs && h in st.values ==> st'.values[h] == st.values[h])
      && (forall h :: h in hs && h in st'.values ==>
            Installed(st', h, raws[h], fetch) || (h in st.values && st'.values[h] == st.values[h]))
      && (res.Ok? ==> forall h :: h in hs ==> Installed(st', h, raws[h], fetch))
      && (res.Err? ==> res.error.FetchFailed? && res.error.entry in hs
                       && ResolveAll(raws[res.error.entry].files, fetch).None?)
  {
    InstallFrame(st, hs, raws, fetch);
    InstallOutcome(st, hs, raws, fetch);
  }

  lemma {:induction false} InstallFrame(st: EntryStore.Store, hs: seq<string>, raws: map<string, EntryRaw>,
                                        fetch: Url -> Option<PubKey>)
    requires forall h :: h in hs ==> h in raws
    ensures var st' := Install(st, hs, raws, fetch).0;
      && (st.Valid() ==> st'.Valid())
      && (forall h :: h in st.values ==> h in st'.values)
      && (forall h :: h !in hs ==> (h in st'.values <==> h in st.values))
      && (forall h :: h !in hs && h in st.values ==> st'.values[h] == st.values[h])
  {
    if hs != [] {
      var init := hs[..|hs| - 1];
      var h := hs[|hs| - 1];
      assert forall x :: x in hs <==> x in init || x == h;
      InstallFrame(st, init, raws, fetch);
    }
  }

  lemma {:induction false} InstallOutcome(st: EntryStore.Store, hs: seq<string>, raws: map<string, EntryRaw>,
                                          fetch: Url -> Option<PubKey>)
    requires forall h :: h in hs ==> h in raws
    ensures var (st', res) := Install(st, hs, raws, fetch);
      && (forall h :: h in hs && h in st'.values ==>
            Installed(st', h, raws[h], fetch) || (h in st.values && st'.values[h] == st.values[h]))
      && (res.Ok? ==> forall h :: h in hs ==> Installed(st', h, raws[h], fetch))
      && (res.Err? ==> res.error.FetchFailed? && res.error.entry in hs
                       && ResolveAll(raws[res.error.entry].files, fetch).None?)
  {
    if hs != [] {
      var init := hs[..|hs| - 1];
      var h := hs[|hs| - 1];
      assert forall x :: x in hs <==> x in init || x == h;
      InstallOutcome(st, init, raws, fetch);
      InstallFrame(st, init, raws, fetch);
      var (s0, res0) := Install(st, init, raws, fetch);
      if res0.Err? || ResolveAll(raws[h].files, fetch).None? {
        var st' := Install(st, hs, raws, fetch).0;
        assert st' == s0;
      } else {
        var st' := Install(st, hs, raws, fetch).0;
        assert st'.values == s0.values[h := Loaded(raws[h], ResolveAll(raws[h].files, fetch).value)];
        assert Installed(st', h, raws[h], fetch);
        forall x | x in init && x != h && x in st'.values
          ensures Installed(st', x, raws[x], fetch) || (x in st.values && st'.values[x] == st.values[x])
        {
          assert x in s0.values && st'.values[x] == s0.values[x];
        }
      }
    }
  }

  /** Loading keeps every entry non-empty, given that every raw entry names at least one file. */
  lemma {:induction false} InstallNoEmpty(st: EntryStore.Store, hs: seq<string>, raws: map<string, EntryRaw>,
                                          fetch: Url -> Option<PubKey>)
    requires forall h :: h in hs ==> h in raws && raws[h].files != []
    requires EntryStore.NoEmptyEntries(st)
    ensures EntryStore.NoEmptyEntries(Install(st, hs, raws, fetch).0)
  {
    if hs != [] {
      InstallNoEmpty(st, hs[..|hs| - 1], raws, fetch);
    }
  }

  /** What `loadKeys` leaves under hash `h`, as `LoadEffect` states it for every hash. */
  ghost predicate LoadedAt(st: EntryStore.Store, st': EntryStore.Store, r: Result<(), LoadError>,
                           gs: seq<Group>, isDomain: string -> bool, fetch: Url -> Option<PubKey>, h: string)
  {
    AcceptedWithHash(gs, h, isDomain);
    && (h in st.values ==> h in st'.values)
    && (!AcceptedHash(gs, h, isDomain) ==>
          (h in st'.values <==> h in st.values) && (h in st.values ==> st'.values[h] == st.values[h]))
    && (r.Ok? && AcceptedHash(gs, h, isDomain) ==>
          && h in st'.values
          && ResolveAll(Expected(WithHash(Accepted(gs, isDomain), h), h).files, fetch).Some?
          && st'.values[h] == Loaded(Expected(WithHash(Accepted(gs, isDomain), h), h),
                                     ResolveAll(Expected(WithHash(Accepted(gs, isDomain), h), h).files, fetch).value)
          && st'.values[h].uid == Expected(WithHash(Accepted(gs, isDomain), h), h).uid
          && |st'.values[h].pubKeys| == |Expected(WithHash(Accepted(gs, isDomain), h), h).files|
          && NewestFirst(st'.values[h].pubKeys))
  }

  lemma {:induction false} LoadEffectAt(st: EntryStore.Store, manifest: string, isDomain: string -> bool,
                     fetch: Url -> Option<PubKey>, h: string)
    ensures var (st', r) := Load(st, manifest, isDomain, fetch);
      LoadedAt(st, st', r, Groups(Tokenize(manifest)), isDomain, fetch, h)
  {
    var gs := Groups(Tokenize(manifest));
    if KeysFrom(gs, isDomain).Ok? {
      var raw := KeysFrom(gs, isDomain).value;
      KeysFromEntries(gs, isDomain);
      ResultHashes(gs, isDomain);
      InstallEffect(st, raw.keys, raw.values, fetch);
      assert DescribesAt(raw, Accepted(gs, isDomain), h);
      assert h in raw.keys <==> AcceptedHash(gs, h, isDomain);
    }
  }

  /**
   * `loadKeys` end to end: no hash is removed; a hash no accepted match
   * names keeps its entry; on success each accepted hash holds the user IDs
   * of its matches and the keys its key files resolve to, newest first.
   */
  lemma {:induction false} LoadEffect(st: EntryStore.Store, manifest: string, isDomain: string -> bool, fetch: Url -> Option<PubKey>)
    ensures forall h :: LoadedAt(st, Load(st, manifest, isDomain, fetch).0, Load(st, manifest, isDomain, fetch).1,
                                 Groups(Tokenize(manifest)), isDomain, fetch, h)
  {
    var (st', r) := Load(st, manifest, isDomain, fetch);
    forall h ensures LoadedAt(st, st', r, Groups(Tokenize(manifest)), isDomain, fetch, h) {
      LoadEffectAt(st, manifest, isDomain, fetch, h);
    }
  }

  // ---------------------------------------------------------------------
  // The manager
  // ---------------------------------------------------------------------

  /** The entry store: a map from WKD hash to entry, in insertion order. */
  class WKDEntryManager {
    var store: EntryStore.Store

    ghost predicate Valid()
      reads this
    {
      EntryStore.Valid(store)
    }

    constructor()
      ensures Valid() && store == Empty()
    {
      store := Empty();
    }

    /**
     * `loadKeys`, given the manifest text, the domain filter and the key
     * fetcher: every manifest hash is set, in manifest order, to its user
     * IDs and its keys sorted newest first. A manifest error changes
     * nothing; a key that does not resolve stops the loop, with the hashes
     * before it already set.
     */
    method LoadKeys(manifest: string, isDomain: string -> bool, fetch: Url -> Option<PubKey>)
      returns (r: Result<(), LoadError>)
      requires Valid()
      modifies this
      ensures Valid()
      ensures (store, r) == Load(old(store), manifest, isDomain, fetch)
    {
      var keys := GetKeysURL(manifest, isDomain);
      if keys.Err? {
        return Err(keys.error);
      }
      var raw := keys.value;
      KeysFromEntries(Groups(Tokenize(manifest)), isDomain);
      KeysFromNonEmpty(Groups(Tokenize(manifest)), isDomain);
      ghost var st0 := store;
      var i := 0;
      while i < |raw.keys|
        invariant 0 <= i <= |raw.keys|
        invariant (store, Ok(())) == Install(st0, raw.keys[..i], raw.values, fetch)
        invariant EntryStore.Valid(store)
      {
        var entry := raw.keys[i];
        var rawEntry := raw.values[entry];
        var pubKeys := ResolveAll(rawEntry.files, fetch);
        assert raw.keys[..i + 1][..i] == raw.keys[..i];
        if pubKeys.None? {
          InstallErrSticky(st0, raw.keys, raw.values, fetch, i + 1);
          return Err(FetchFailed(entry));
        }
        store := store.Put(entry, Loaded(rawEntry, pubKeys.value));
        i := i + 1;
      }
      assert raw.keys[..|raw.keys|] == raw.keys;
      return Ok(());
    }

    /** `findEntryKey(f)`: scans the entries in order and returns the first hash holding `f`. */
    method FindEntryKey(f: string) returns (r: Option<EntryStore.EntryKey>)
      requires Valid()
      ensures r == EntryStore.FindEntryKey(store, f)
    {
      var i := 0;
      while i < |store.keys|
        invariant 0 <= i <= |store.keys|
        invariant forall j :: 0 <= j < i ==> !EntryStore.Holds(store, store.keys[j], f)
      {
        var entry := store.keys[i];
        if AnyMatches(store.values[entry].pubKeys, f) {
          return Some(entry);
        }
        i := i + 1;
      }
      return None;
    }

    /** `hasFingerprint(f)`; the hook's `hasPubKey(f)` is the same test. */
    method HasFingerprint(f: string) returns (b: bool)
      requires Valid()
      ensures b == EntryStore.HasFingerprint(store, f)
      ensures b <==> exists h :: EntryStore.Holds(store, h, f)
    {
      var entry := FindEntryKey(f);
      EntryStore.HasFingerprintIff(store, f);
      b := entry.Some?;
    }

    /** `deletePubKey(f)`. */
    method DeletePubKey(f: string) returns (k: Option<PubKey>)
      requires Valid()
      modifies this
      ensures Valid()
      ensures (store, k) == EntryStore.DeleteKey(old(store), f)
    {
      EntryStore.DeleteKeyCounts(store, f);
      var (st', removed) := EntryStore.DeleteKey(store, f);
      store := st';
      k := removed;
    }

    /**
     * `updatePubKey(f, commit)`: `resolve` reads the key file of `f` at
     * `commit`. Returns the replaced key and its replacement.
     */
    method UpdatePubKey(f: string, commit: string, resolve: (string, string) -> PubKey)
      returns (oldKey: PubKey, newKey: PubKey)
      requires Valid() && EntryStore.HasFingerprint(store, f)
      modifies this
      ensures Valid()
      ensures (store, oldKey, newKey) == EntryStore.UpdateKey(old(store), f, resolve(commit, f))
    {
      EntryStore.UpdateKeyCounts(store, f, resolve(commit, f));
      var (st', o, n) := EntryStore.UpdateKey(store, f, resolve(commit, f));
      store := st';
      oldKey, newKey := o, n;
    }
  }
}
