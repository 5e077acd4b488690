/**
 * The older store revision, `pgpkeys`: `loadMap` reads the manifest into
 * `mapping` (hash to user IDs and key file names), and `loadKeys` sets every
 * mapped hash to its keys. Unlike `WKDEntryManager`, the zero-key check
 * runs before the domain check, a merge appends the UID, the keys are not
 * sorted, and `mapping` is updated in place, so a failure leaves the
 * matches before it applied.
 */
module PgpKeys {
  import opened Wrappers
  import opened Keys
  import opened OrderedMaps
  import opened Manifest
  import WKDEntries

  /** `MapEntry`: the user IDs and key file names listed for one hash. */
  datatype MapEntry = MapEntry(uid: seq<string>, pubKeys: seq<string>)

  datatype PgpError =
    | NoPublicKeys(uid: string)   // "No public keys found for UID <uid>"
    | FetchFailed(hash: string)

  /** One pass of the `loadMap` loop: the new mapping, or the error it throws. */
  function MapStep(mapping: OMap<MapEntry>, g: Group, isDomain: string -> bool): Result<OMap<MapEntry>, PgpError>
  {
    var pubKeys := ExtractFiles(Capture(g.files));
    if |pubKeys| == 0 then Err(NoPublicKeys(g.uid))
    else if !isDomain(g.uid) then Ok(mapping)
    else if g.hash in mapping.values then
      var entry := mapping.values[g.hash];
      Ok(mapping.Put(g.hash, MapEntry(entry.uid + [g.uid], entry.pubKeys + pubKeys)))
    else Ok(mapping.Put(g.hash, MapEntry([g.uid], pubKeys)))
  }

  /**
   * The mapping after the matches `gs`, starting from `mapping`, and the
   * error if one was thrown; on an error the mapping is the one the failing
   * match found.
   */
  function MapFrom(mapping: OMap<MapEntry>, gs: seq<Group>, isDomain: string -> bool): (OMap<MapEntry>, Option<PgpError>)
  {
    if gs == [] then (mapping, None)
    else
      var prev := MapFrom(mapping, gs[..|gs| - 1], isDomain);
      if prev.1.Some? then prev
      else match MapStep(prev.0, gs[|gs| - 1], isDomain)
        case Err(e) => (prev.0, Some(e))
        case Ok(m) => (m, None)
  }

  /** One more pass of the `loadMap` loop, after the passes before it all succeeded. */
  lemma {:induction false} MapFromSnoc(mapping: OMap<MapEntry>, gs: seq<Group>, i: nat, isDomain: string -> bool)
    requires i < |gs| && MapFrom(mapping, gs[..i], isDomain).1.None?
    ensures var prev := MapFrom(mapping, gs[..i], isDomain).0;
      MapFrom(mapping, gs[..i + 1], isDomain)
        == match MapStep(prev, gs[i], isDomain)
           case Err(e) => (prev, Some(e))
           case Ok(m) => (m, None)
  {
    assert gs[..i + 1][..i] == gs[..i];
  }

  lemma {:induction false} MapFromErrSticky(mapping: OMap<MapEntry>, gs: seq<Group>, i: nat, isDomain: string -> bool)
    requires i <= |gs| && MapFrom(mapping, gs[..i], isDomain).1.Some?
    ensures MapFrom(mapping, gs, isDomain) == MapFrom(mapping, gs[..i], isDomain)
    decreases |gs| - i
  {
    if i < |gs| {
      assert gs[..i + 1][..i] == gs[..i];
      MapFromErrSticky(mapping, gs, i + 1, isDomain);
    } else {
      assert gs[..i] == gs;
    }
  }

  /** `m'` extends `m`: no hash is removed, and each entry only grows at its end. */
  ghost predicate Extends(m: OMap<MapEntry>, m': OMap<MapEntry>) {
    forall h :: h in m.values ==>
      && h in m'.values
      && m.values[h].uid <= m'.values[h].uid
      && m.values[h].pubKeys <= m'.values[h].pubKeys
  }

  lemma {:induction false} ExtendsTrans(a: OMap<MapEntry>, b: OMap<MapEntry>, c: OMap<MapEntry>)
    requires Extends(a, b) && Extends(b, c)
    ensures Extends(a, c)
  {
    forall h | h in a.values
      ensures a.values[h].uid <= c.values[h].uid && a.values[h].pubKeys <= c.values[h].pubKeys
    {
      PrefixTrans(a.values[h].uid, b.values[h].uid, c.values[h].uid);
      PrefixTrans(a.values[h].pubKeys, b.values[h].pubKeys, c.values[h].pubKeys);
    }
  }

  lemma {:induction false} PrefixTrans(a: seq<string>, b: seq<string>, c: seq<string>)
    requires a <= b && b <= c
    ensures a <= c
  {
    assert c[..|a|] == b[..|a|];
  }

  /** `loadMap` only adds or extends entries of `mapping`; it never removes or shrinks one, even when it throws. */
  lemma {:induction false} MapFromExtends(mapping: OMap<MapEntry>, gs: seq<Group>, isDomain: string -> bool)
    ensures Extends(mapping, MapFrom(mapping, gs, isDomain).0)
    ensures mapping.Valid() ==> MapFrom(mapping, gs, isDomain).0.Valid()
  {
    if gs != [] {
      var init := gs[..|gs| - 1];
      MapFromExtends(mapping, init, isDomain);
      var (m0, err) := MapFrom(mapping, init, isDomain);
      if err.None? && MapStep(m0, gs[|gs| - 1], isDomain).Ok? {
        var m := MapStep(m0, gs[|gs| - 1], isDomain).value;
        assert Extends(m0, m);
        ExtendsTrans(mapping, m0, m);
      }
    }
  }

  /** One pass of `loadMap` throws exactly when the match has no key files, and names its UID. */
  lemma {:induction false} MapStepFails(mapping: OMap<MapEntry>, g: Group, isDomain: string -> bool)
    ensures MapStep(mapping, g, isDomain).Err? <==> g.files == []
    ensures MapStep(mapping, g, isDomain).Err? ==> MapStep(mapping, g, isDomain).error == NoPublicKeys(g.uid)
  {
    ExtractFilesOfCapture(g.files);
  }

  /**
   * `loadMap` throws exactly when some match has no key files, whatever its
   * UID: the zero-key check comes before the domain check.
   */
  lemma {:induction false} MapFromFails(mapping: OMap<MapEntry>, gs: seq<Group>, isDomain: string -> bool)
    ensures MapFrom(mapping, gs, isDomain).1.Some? <==> exists i :: 0 <= i < |gs| && gs[i].files == []
  {
    if gs != [] {
      var init := gs[..|gs| - 1];
      var g := gs[|gs| - 1];
      MapFromFails(mapping, init, isDomain);
      var prev := MapFrom(mapping, init, isDomain);
      MapStepFails(prev.0, g, isDomain);
      if prev.1.Some? {
        var i :| 0 <= i < |init| && init[i].files == [];
        assert gs[i] == init[i];
      } else if g.files != [] {
        forall j | 0 <= j < |gs| ensures gs[j].files != [] {
          if j < |init| {
            assert gs[j] == init[j];
          }
        }
      }
    }
  }

  /** When `loadMap` throws, the error names the UID of the first match without key files. */
  lemma {:induction false} MapFromFirstError(mapping: OMap<MapEntry>, gs: seq<Group>, isDomain: string -> bool)
    requires MapFrom(mapping, gs, isDomain).1.Some?
    ensures exists i :: && 0 <= i < |gs| && gs[i].files == []
                        && (forall j :: 0 <= j < i ==> gs[j].files != [])
                        && MapFrom(mapping, gs, isDomain).1.value == NoPublicKeys(gs[i].uid)
  {
    var init := gs[..|gs| - 1];
    var g := gs[|gs| - 1];
    var prev := MapFrom(mapping, init, isDomain);
    if prev.1.Some? {
      MapFromFirstError(mapping, init, isDomain);
      var i :| && 0 <= i < |init| && init[i].files == []
               && (forall j :: 0 <= j < i ==> init[j].files != [])
               && prev.1.value == NoPublicKeys(init[i].uid);
      assert gs[i] == init[i];
      assert forall j :: 0 <= j < i ==> gs[j] == init[j];
    } else {
      MapFromFails(mapping, init, isDomain);
      MapStepFails(prev.0, g, isDomain);
      assert forall j :: 0 <= j < |init| ==> gs[j] == init[j];
      assert gs[|gs| - 1].files == [];
    }
  }

  /** A match whose UID is outside the domain and which has key files leaves `mapping` untouched. */
  lemma {:induction false} SkipsForeignUid(mapping: OMap<MapEntry>, g: Group, isDomain: string -> bool)
    requires !isDomain(g.uid) && g.files != []
    ensures MapStep(mapping, g, isDomain) == Ok(mapping)
  {
    ExtractFilesOfCapture(g.files);
  }

  /**
   * A match for a hash already mapped appends its UID, not its hash, and
   * appends its file names, duplicates included.
   */
  lemma {:induction false} MergeAppendsUid(mapping: OMap<MapEntry>, g: Group, isDomain: string -> bool)
    requires isDomain(g.uid) && g.files != [] && g.hash in mapping.values
    ensures MapStep(mapping, g, isDomain).Ok?
    ensures MapStep(mapping, g, isDomain).value.values[g.hash] ==
      MapEntry(mapping.values[g.hash].uid + [g.uid], mapping.values[g.hash].pubKeys + g.files)
  {
    ExtractFilesOfCapture(g.files);
  }

  // A reference description of what a successful `loadMap` adds, match by match.

  /** The UIDs of the matches, in order. */
  function UidsOf(gs: seq<Group>): seq<string> {
    if gs == [] then [] else UidsOf(gs[..|gs| - 1]) + [gs[|gs| - 1].uid]
  }

  /** The key file names of the matches, concatenated in order. */
  function FilesOf(gs: seq<Group>): seq<string> {
    if gs == [] then [] else FilesOf(gs[..|gs| - 1]) + gs[|gs| - 1].files
  }

  /** The hashes of the matches `A` that are not in `known`, each once, in the order first seen. */
  function NewHashes(known: seq<string>, A: seq<Group>): seq<string> {
    if A == [] then []
    else
      var prev := NewHashes(known, A[..|A| - 1]);
      var h := A[|A| - 1].hash;
      if h in known || h in prev then prev else prev + [h]
  }

  /**
   * The entry for `h` once the matches `W` for it are added to `m0`: their
   * UIDs and key files appended to the entry `m0` had, or, for a hash `m0`
   * did not have, the first match's UID followed by the later ones and all
   * their files.
   */
  function Grown(m0: OMap<MapEntry>, h: string, W: seq<Group>): MapEntry {
    if h in m0.values then MapEntry(m0.values[h].uid + UidsOf(W), m0.values[h].pubKeys + FilesOf(W))
    else MapEntry(UidsOf(W), FilesOf(W))
  }

  /** `m` is `m0` with the accepted matches `A` added, for hash `h`. */
  ghost predicate MapDescribesAt(m0: OMap<MapEntry>, m: OMap<MapEntry>, A: seq<Group>, h: string) {
    && (h in m.values <==> h in m0.values || WKDEntries.WithHash(A, h) != [])
    && (h in m.values ==> m.values[h] == Grown(m0, h, WKDEntries.WithHash(A, h)))
  }

  /** `m` is `m0` with the accepted matches `A` added: new hashes go to the end, in the order first seen. */
  ghost predicate MapDescribes(m0: OMap<MapEntry>, m: OMap<MapEntry>, A: seq<Group>) {
    && m.Valid()
    && m.keys == m0.keys + NewHashes(m0.keys, A)
    && forall h :: MapDescribesAt(m0, m, A, h)
  }

  lemma {:induction false} GrownSnoc(m0: OMap<MapEntry>, h: string, W: seq<Group>, g: Group)
    ensures Grown(m0, h, W + [g]) == MapEntry(Grown(m0, h, W).uid + [g.uid], Grown(m0, h, W).pubKeys + g.files)
  {
    assert (W + [g])[..|W|] == W;
  }

  lemma {:induction false} MapDescribesOtherHash(m0: OMap<MapEntry>, m: OMap<MapEntry>, A0: seq<Group>, g: Group,
                                                 v: MapEntry, h: string)
    requires h != g.hash && MapDescribesAt(m0, m, A0, h)
    ensures MapDescribesAt(m0, m.Put(g.hash, v), A0 + [g], h)
  {
    WKDEntries.WithHashSnoc(A0, g, h);
    assert WKDEntries.WithHash(A0 + [g], h) == WKDEntries.WithHash(A0, h);
  }

  lemma {:induction false} MapDescribesSameHash(m0: OMap<MapEntry>, m: OMap<MapEntry>, A0: seq<Group>, g: Group)
    requires MapDescribesAt(m0, m, A0, g.hash)
    ensures var v := if g.hash in m.values
        then MapEntry(m.values[g.hash].uid + [g.uid], m.values[g.hash].pubKeys + g.files)
        else MapEntry([g.uid], g.files);
      MapDescribesAt(m0, m.Put(g.hash, v), A0 + [g], g.hash)
  {
    var W := WKDEntries.WithHash(A0, g.hash);
    WKDEntries.WithHashSnoc(A0, g, g.hash);
    GrownSnoc(m0, g.hash, W, g);
    if g.hash !in m.values {
      assert W == [];
      assert UidsOf([]) == [] && FilesOf([]) == [];
    }
  }

  lemma {:induction false} NewHashesSnoc(known: seq<string>, A0: seq<Group>, g: Group)
    ensures NewHashes(known, A0 + [g]) ==
      var prev := NewHashes(known, A0);
      if g.hash in known || g.hash in prev then prev else prev + [g.hash]
  {
    assert (A0 + [g])[..|A0|] == A0;
  }

  /** One successful pass of `loadMap` keeps the description, with the match added when its UID is accepted. */
  lemma {:induction false} MapStepDescribes(m0: OMap<MapEntry>, m: OMap<MapEntry>, A0: seq<Group>, g: Group,
                                            isDomain: string -> bool)
    requires MapDescribes(m0, m, A0) && MapStep(m, g, isDomain).Ok?
    ensures MapDescribes(m0, MapStep(m, g, isDomain).value, A0 + (if isDomain(g.uid) then [g] else []))
  {
    ExtractFilesOfCapture(g.files);
    if isDomain(g.uid) {
      var v := if g.hash in m.values
        then MapEntry(m.values[g.hash].uid + [g.uid], m.values[g.hash].pubKeys + g.files)
        else MapEntry([g.uid], g.files);
      var m' := m.Put(g.hash, v);
      assert MapStep(m, g, isDomain).value == m';
      forall h ensures MapDescribesAt(m0, m', A0 + [g], h) {
        if h == g.hash {
          MapDescribesSameHash(m0, m, A0, g);
        } else {
          MapDescribesOtherHash(m0, m, A0, g, v, h);
        }
      }
      NewHashesSnoc(m0.keys, A0, g);
      assert g.hash in m.values <==> g.hash in m.keys;
    } else {
      assert A0 + [] == A0;
    }
  }

  /**
   * A `loadMap` that does not throw adds to `mapping` exactly the accepted
   * matches: a hash no accepted match names keeps its entry, or stays
   * absent; a hash already mapped gets the UIDs and key files of its
   * matches appended; a new hash maps to the UID of its first match, then
   * those of the later ones, and all their key files in order. New hashes
   * are listed after the old ones, in the order first seen.
   */
  lemma {:induction false} MapFromEntries(mapping: OMap<MapEntry>, gs: seq<Group>, isDomain: string -> bool)
    requires mapping.Valid() && MapFrom(mapping, gs, isDomain).1.None?
    ensures MapDescribes(mapping, MapFrom(mapping, gs, isDomain).0, WKDEntries.Accepted(gs, isDomain))
  {
    if gs == [] {
      assert mapping.keys + [] == mapping.keys;
      forall h | h in mapping.values ensures mapping.values[h] == Grown(mapping, h, []) {
        assert mapping.values[h].uid + [] == mapping.values[h].uid;
        assert mapping.values[h].pubKeys + [] == mapping.values[h].pubKeys;
      }
    } else {
      var init := gs[..|gs| - 1];
      var g := gs[|gs| - 1];
      var prev := MapFrom(mapping, init, isDomain);
      assert prev.1.None?;
      MapFromEntries(mapping, init, isDomain);
      MapStepDescribes(mapping, prev.0, WKDEntries.Accepted(init, isDomain), g, isDomain);
    }
  }

  /** `loadKeys` step: the keys of one mapped hash, fetched in file order and not sorted. */
  function FetchKeys(files: seq<string>, fetch: Url -> Option<PubKey>): (r: Option<seq<PubKey>>)
    ensures r.Some? ==> |r.value| == |files| && forall i :: 0 <= i < |files| ==> fetch(KeyFileUrl(files[i])) == Some(r.value[i])
    ensures r.None? <==> exists i :: 0 <= i < |files| && fetch(KeyFileUrl(files[i])).None?
  {
    if files == [] then Some([])
    else match fetch(KeyFileUrl(files[0]))
      case None => None
      case Some(k) =>
        match FetchKeys(files[1..], fetch)
        case None => None
        case Some(ks) => Some([k] + ks)
  }

  /** The keys map after `loadKeys` has visited the hashes `hs`, and the failing hash if it stopped. */
  function SetKeys(keys: OMap<seq<PubKey>>, hs: seq<string>, mapping: map<string, MapEntry>, fetch: Url -> Option<PubKey>)
    : (OMap<seq<PubKey>>, Option<PgpError>)
    requires forall h :: h in hs ==> h in mapping
  {
    if hs == [] then (keys, None)
    else
      var (k0, err) := SetKeys(keys, hs[..|hs| - 1], mapping, fetch);
      var h := hs[|hs| - 1];
      if err.Some? then (k0, err)
      else match FetchKeys(mapping[h].pubKeys, fetch)
        case None => (k0, Some(FetchFailed(h)))
        case Some(ks) => (k0.Put(h, ks), None)
  }

  /** One more pass of the `loadKeys` loop, after the passes before it all resolved. */
  lemma {:induction false} SetKeysSnoc(keys: OMap<seq<PubKey>>, hs: seq<string>, i: nat, mapping: map<string, MapEntry>,
                    fetch: Url -> Option<PubKey>)
    requires forall h :: h in hs ==> h in mapping
    requires i < |hs| && SetKeys(keys, hs[..i], mapping, fetch).1.None?
    ensures var prev := SetKeys(keys, hs[..i], mapping, fetch).0;
      SetKeys(keys, hs[..i + 1], mapping, fetch)
        == match FetchKeys(mapping[hs[i]].pubKeys, fetch)
           case None => (prev, Some(FetchFailed(hs[i])))
           case Some(ks) => (prev.Put(hs[i], ks), None)
  {
    assert hs[..i + 1][..i] == hs[..i];
  }

  /** The `loadKeys` loop after one more hash: it stops with that hash's error, or sets its keys. */
  lemma {:induction false} SetKeysAdvance(keys: OMap<seq<PubKey>>, hs: seq<string>, i: nat,
                                          mapping: map<string, MapEntry>, fetch: Url -> Option<PubKey>)
    requires forall h :: h in hs ==> h in mapping
    requires i < |hs| && SetKeys(keys, hs[..i], mapping, fetch).1.None?
    ensures var prev := SetKeys(keys, hs[..i], mapping, fetch).0;
      match FetchKeys(mapping[hs[i]].pubKeys, fetch)
      case None => SetKeys(keys, hs, mapping, fetch) == (prev, Some(FetchFailed(hs[i])))
      case Some(ks) => SetKeys(keys, hs[..i + 1], mapping, fetch) == (prev.Put(hs[i], ks), None)
  {
    SetKeysSnoc(keys, hs, i, mapping, fetch);
    if FetchKeys(mapping[hs[i]].pubKeys, fetch).None? {
      SetKeysErrSticky(keys, hs, mapping, fetch, i + 1);
    }
  }

  lemma {:induction false} SetKeysErrSticky(keys: OMap<seq<PubKey>>, hs: seq<string>, mapping: map<string, MapEntry>,
                                            fetch: Url -> Option<PubKey>, i: nat)
    requires forall h :: h in hs ==> h in mapping
    requires i <= |hs| && SetKeys(keys, hs[..i], mapping, fetch).1.Some?
    ensures SetKeys(keys, hs, mapping, fetch) == SetKeys(keys, hs[..i], mapping, fetch)
    decreases |hs| - i
  {
    if i < |hs| {
      assert hs[..i + 1][..i] == hs[..i];
      SetKeysErrSticky(keys, hs, mapping, fetch, i + 1);
    } else {
      assert hs[..i] == hs;
    }
  }

  /**
   * When `loadKeys` completes, every mapped hash holds its keys in file
   * order, one per file; hashes it does not visit keep their keys.
   */
  lemma {:induction false} SetKeysEffect(keys: OMap<seq<PubKey>>, hs: seq<string>, mapping: map<string, MapEntry>,
                                         fetch: Url -> Option<PubKey>)
    requires forall h :: h in hs ==> h in mapping
    ensures var (k', err) := SetKeys(keys, hs, mapping, fetch);
      && (keys.Valid() ==> k'.Valid())
      && (forall h :: h !in hs ==> (h in k'.values <==> h in keys.values))
      && (forall h :: h !in hs && h in keys.values ==> k'.values[h] == keys.values[h])
      && (err.None? ==> forall h :: h in hs ==>
            h in k'.values && Some(k'.values[h]) == FetchKeys(mapping[h].pubKeys, fetch))
  {
    if hs != [] {
      var init := hs[..|hs| - 1];
      assert forall x :: x in hs <==> x in init || x == hs[|hs| - 1];
      SetKeysEffect(keys, init, mapping, fetch);
    }
  }

  // ---------------------------------------------------------------------
  // Against the later loader
  // ---------------------------------------------------------------------

  /**
   * A match for a user outside the domain that lists no key file: this
   * loader throws on it, naming only the user ID, because it checks the
   * key files before the domain; `getKeysURL` in `WKDEntryManager`
   * checks the domain first and passes over it.
   */
  lemma {:induction false} ForeignEmptyMatch(mapping: OMap<MapEntry>, result: OMap<WKDEntries.EntryRaw>, g: Group, isDomain: string -> bool)
    requires ExtractFiles(Capture(g.files)) == [] && !isDomain(g.uid)
    ensures MapStep(mapping, g, isDomain) == Err(NoPublicKeys(g.uid))
    ensures WKDEntries.AddGroup(result, g, isDomain) == Ok(result)
  {
  }

  /**
   * A second in-domain match for a hash already seen: this loader records
   * the match's user ID, `getKeysURL` records the hash again. Both append
   * the match's key files.
   */
  lemma {:induction false} MergeRecords(mapping: OMap<MapEntry>, result: OMap<WKDEntries.EntryRaw>, g: Group, isDomain: string -> bool)
    requires isDomain(g.uid) && ExtractFiles(Capture(g.files)) != []
    requires g.hash in mapping.values && g.hash in result.values
    ensures MapStep(mapping, g, isDomain).Ok?
    ensures MapStep(mapping, g, isDomain).value.values[g.hash].uid == mapping.values[g.hash].uid + [g.uid]
    ensures WKDEntries.AddGroup(result, g, isDomain).Ok?
    ensures WKDEntries.AddGroup(result, g, isDomain).value.values[g.hash].uid == result.values[g.hash].uid + [g.hash]
  {
  }

  /** The `pgpkeys` store: a map from hash to keys, with the manifest `mapping` beside it. */
  class PgpKeyStore {
    var keys: OMap<seq<PubKey>>
    var mapping: OMap<MapEntry>

    ghost predicate Valid()
      reads this
    {
      keys.Valid() && mapping.Valid()
    }

    constructor()
      ensures Valid() && keys == Empty() && mapping == Empty()
    {
      keys := Empty();
      mapping := Empty();
    }

    /**
     * `loadMap`, given the manifest text and the domain filter. The
     * mapping is updated match by match; an error leaves the earlier
     * matches applied.
     */
    method LoadMap(manifest: string, isDomain: string -> bool) returns (err: Option<PgpError>)
      requires Valid()
      modifies this
      ensures Valid() && keys == old(keys)
      ensures (mapping, err) == MapFrom(old(mapping), Groups(Tokenize(manifest)), isDomain)
    {
      var gs := ScanGroups(Tokenize(manifest));
      ghost var m0 := mapping;
      var i := 0;
      while i < |gs|
        invariant 0 <= i <= |gs|
        invariant keys == old(keys)
        invariant mapping == MapFrom(m0, gs[..i], isDomain).0
        invariant MapFrom(m0, gs[..i], isDomain).1.None?
        invariant mapping.Valid()
      {
        var g := gs[i];
        MapFromSnoc(m0, gs, i, isDomain);
        var pubKeys := ExtractFiles(Capture(g.files));
        if |pubKeys| == 0 {
          MapFromErrSticky(m0, gs, i + 1, isDomain);
          return Some(NoPublicKeys(g.uid));
        }
        if isDomain(g.uid) {
          if g.hash in mapping.values {
            var entry := mapping.values[g.hash];
            mapping := mapping.Put(g.hash, MapEntry(entry.uid + [g.uid], entry.pubKeys + pubKeys));
          } else {
            mapping := mapping.Put(g.hash, MapEntry([g.uid], pubKeys));
          }
        }
        i := i + 1;
      }
      assert gs[..|gs|] == gs;
      return None;
    }

    /** `loadKeys`: every mapped hash, in mapping order, is set to its fetched keys. */
    method LoadKeys(fetch: Url -> Option<PubKey>) returns (err: Option<PgpError>)
      requires Valid()
      modifies this
      ensures Valid() && mapping == old(mapping)
      ensures (keys, err) == SetKeys(old(keys), mapping.keys, mapping.values, fetch)
    {
      ghost var k0 := keys;
      var hs := mapping.keys;
      var i := 0;
      while i < |hs|
        invariant 0 <= i <= |hs|
        invariant mapping == old(mapping) && hs == mapping.keys
        invariant forall h :: h in hs ==> h in mapping.values
        invariant keys == SetKeys(k0, hs[..i], mapping.values, fetch).0
        invariant SetKeys(k0, hs[..i], mapping.values, fetch).1.None?
        invariant keys.Valid()
      {
        var wkdHash := hs[i];
        var pubKeys := FetchKeys(mapping.values[wkdHash].pubKeys, fetch);
        SetKeysAdvance(k0, hs, i, mapping.values, fetch);
        if pubKeys.None? {
          return Some(FetchFailed(wkdHash));
        }
        keys := keys.Put(wkdHash, pubKeys.value);
        i := i + 1;
      }
      assert hs[..|hs|] == hs;
      return None;
    }
  }
}
