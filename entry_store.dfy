/**
 * The WKD entry store as a value: an insertion-ordered map from WKD hash to
 * entry. The lookups are the ones `WKDEntryManager` defines; deleting,
 * replacing and counting keys are the operations the push hook calls on it
 * (`deletePubKey`, `hasPubKey`, `updatePubKey`, `pubKeySize`).
 */
module EntryStore {
  import opened Wrappers
  import opened Text
  import opened Keys
  import opened OrderedMaps

  type EntryKey = string

  /** One WKD hash bucket: the user IDs listed for it and its keys. */
  datatype Entry = Entry(uid: seq<string>, pubKeys: seq<PubKey>)

  type Store = OMap<Entry>

  /** Every entry in the store has at least one key. */
  ghost predicate NoEmptyEntries(st: Store) {
    forall h :: h in st.values ==> st.values[h].pubKeys != []
  }

  ghost predicate Valid(st: Store) {
    st.Valid() && NoEmptyEntries(st)
  }

  /** Entry `h` holds a key whose fingerprint is `f`, ignoring case. */
  predicate Holds(st: Store, h: EntryKey, f: string) {
    h in st.values && AnyMatches(st.values[h].pubKeys, f)
  }

  /** No two keys of the store, in one entry or in two, have the same fingerprint, ignoring case. */
  ghost predicate UniqueFingerprints(st: Store) {
    && (forall h1, h2, f :: Holds(st, h1, f) && Holds(st, h2, f) ==> h1 == h2)
    && (forall h :: h in st.values ==> DistinctFingerprints(st.values[h].pubKeys))
  }

  ghost predicate DistinctFingerprints(ks: seq<PubKey>) {
    forall i, j :: 0 <= i < j < |ks| ==> ToUpper(ks[i].fingerprint) != ToUpper(ks[j].fingerprint)
  }

  // ---------------------------------------------------------------------
  // Lookup
  // ---------------------------------------------------------------------

  /** The position in `hs` of the first hash whose entry holds `f`. */
  function FirstHolding(hs: seq<EntryKey>, st: Store, f: string): (r: Option<nat>)
    ensures r.Some? ==> r.value < |hs| && Holds(st, hs[r.value], f)
    ensures r.Some? ==> forall j :: 0 <= j < r.value ==> !Holds(st, hs[j], f)
    ensures r.None? <==> forall j :: 0 <= j < |hs| ==> !Holds(st, hs[j], f)
  {
    if hs == [] then None
    else if Holds(st, hs[0], f) then Some(0)
    else match FirstHolding(hs[1..], st, f)
      case None => None
      case Some(i) => Some(i + 1)
  }

  /** `findEntryKey(f)`: the first hash, in iteration order, whose entry holds `f`. */
  function FindEntryKey(st: Store, f: string): (r: Option<EntryKey>)
    ensures r.Some? ==> r.value in st.keys && Holds(st, r.value, f)
    ensures r.None? <==> forall h :: h in st.keys ==> !Holds(st, h, f)
  {
    match FirstHolding(st.keys, st, f)
    case None => None
    case Some(i) => Some(st.keys[i])
  }

  /** `hasFingerprint(f)`, which is also what the hook calls `hasPubKey(f)`. */
  predicate HasFingerprint(st: Store, f: string) {
    FindEntryKey(st, f).Some?
  }

  /** No hash listed before the one found holds `f`. */
  lemma {:induction false} FindEntryKeyIsFirst(st: Store, f: string, i: nat)
    requires st.Valid() && FindEntryKey(st, f).Some?
    requires i < |st.keys| && st.keys[i] == FindEntryKey(st, f).value
    ensures forall j :: 0 <= j < i ==> !Holds(st, st.keys[j], f)
  {
    var k := FirstHolding(st.keys, st, f).value;
    assert st.keys[k] == st.keys[i];
  }

  /** `hasFingerprint(f)` holds exactly when some entry holds a key with fingerprint `f`. */
  lemma {:induction false} HasFingerprintIff(st: Store, f: string)
    requires st.Valid()
    ensures HasFingerprint(st, f) <==> exists h :: Holds(st, h, f)
  {
    if !HasFingerprint(st, f) {
      forall h | h in st.values ensures !Holds(st, h, f) {
        assert h in st.keys;
      }
    }
  }

  lemma {:induction false} FirstHoldingIgnoresCase(hs: seq<EntryKey>, st: Store, f: string)
    ensures FirstHolding(hs, st, f) == FirstHolding(hs, st, ToUpper(f))
  {
    ToUpperIdempotent(f);
    if hs != [] {
      FirstHoldingIgnoresCase(hs[1..], st, f);
    }
  }

  /** The lookup ignores the case of the fingerprint asked for. */
  lemma {:induction false} FindEntryKeyIgnoresCase(st: Store, f: string)
    ensures FindEntryKey(st, f) == FindEntryKey(st, ToUpper(f))
    ensures HasFingerprint(st, f) == HasFingerprint(st, ToUpper(f))
  {
    FirstHoldingIgnoresCase(st.keys, st, f);
  }

  /**
   * The key a lookup of `f` finds: the first key matching `f` in the first
   * entry holding one. `deletePubKey` and `updatePubKey` act on this key.
   */
  function StoredKey(st: Store, f: string): (r: PubKey)
    requires HasFingerprint(st, f)
    ensures Matches(r, f)
    ensures exists h :: Holds(st, h, f) && r in st.values[h].pubKeys
  {
    var h := FindEntryKey(st, f).value;
    st.values[h].pubKeys[FirstMatch(st.values[h].pubKeys, f).value]
  }

  /** Fingerprints equal up to case find the same key. */
  lemma {:induction false} StoredKeyIgnoresCase(st: Store, f: string, g: string)
    requires HasFingerprint(st, f) && ToUpper(f) == ToUpper(g)
    ensures HasFingerprint(st, g) && StoredKey(st, g) == StoredKey(st, f)
  {
    FindEntryKeyIgnoresCase(st, f);
    FindEntryKeyIgnoresCase(st, g);
    var h := FindEntryKey(st, f).value;
    FirstMatchIgnoresCase(st.values[h].pubKeys, f);
    FirstMatchIgnoresCase(st.values[h].pubKeys, g);
  }

  // ---------------------------------------------------------------------
  // Counting
  // ---------------------------------------------------------------------

  function SumKeys(hs: seq<EntryKey>, values: map<EntryKey, Entry>): nat {
    if hs == [] then 0
    else (if hs[0] in values then |values[hs[0]].pubKeys| else 0) + SumKeys(hs[1..], values)
  }

  /** `pubKeySize`: the number of keys over all entries. */
  function KeyCount(st: Store): nat {
    SumKeys(st.keys, st.values)
  }

  /** `size`: the number of entries. */
  function EntryCount(st: Store): nat {
    |st.keys|
  }

  lemma {:induction false} SumKeysReplace(hs: seq<EntryKey>, values: map<EntryKey, Entry>, h: EntryKey, e: Entry)
    requires Distinct(hs) && h in hs && h in values
    ensures SumKeys(hs, values[h := e]) == SumKeys(hs, values) - |values[h].pubKeys| + |e.pubKeys|
  {
    if hs[0] == h {
      SumKeysOther(hs[1..], values, h, e);
    } else {
      SumKeysReplace(hs[1..], values, h, e);
    }
  }

  lemma {:induction false} SumKeysOther(hs: seq<EntryKey>, values: map<EntryKey, Entry>, h: EntryKey, e: Entry)
    requires h !in hs
    ensures SumKeys(hs, values[h := e]) == SumKeys(hs, values)
    ensures SumKeys(hs, values - {h}) == SumKeys(hs, values)
  {
    if hs != [] {
      SumKeysOther(hs[1..], values, h, e);
    }
  }

  lemma {:induction false} SumKeysWithout(hs: seq<EntryKey>, values: map<EntryKey, Entry>, h: EntryKey)
    requires Distinct(hs) && h in hs && h in values
    ensures SumKeys(Without(hs, h), values - {h}) == SumKeys(hs, values) - |values[h].pubKeys|
  {
    if hs[0] == h {
      assert h !in hs[1..];
      assert Without(hs[1..], h) == hs[1..] by { WithoutAbsent(hs[1..], h); }
      SumKeysOther(hs[1..], values, h, values[h]);
    } else {
      SumKeysWithout(hs[1..], values, h);
    }
  }

  lemma {:induction false} WithoutAbsent(hs: seq<EntryKey>, h: EntryKey)
    requires h !in hs
    ensures Without(hs, h) == hs
  {
    if hs != [] {
      WithoutAbsent(hs[1..], h);
    }
  }

  lemma {:induction false} WithoutOnce(hs: seq<EntryKey>, h: EntryKey)
    requires Distinct(hs) && h in hs
    ensures |Without(hs, h)| == |hs| - 1
  {
    if hs[0] == h {
      WithoutAbsent(hs[1..], h);
    } else {
      WithoutOnce(hs[1..], h);
    }
  }

  // ---------------------------------------------------------------------
  // Deleting and replacing one key
  // ---------------------------------------------------------------------

  function RemoveAt(ks: seq<PubKey>, i: nat): (r: seq<PubKey>)
    requires i < |ks|
    ensures |r| == |ks| - 1
    ensures forall j :: 0 <= j < i ==> r[j] == ks[j]
    ensures forall j :: i <= j < |r| ==> r[j] == ks[j + 1]
  {
    ks[..i] + ks[i + 1..]
  }

  /**
   * `deletePubKey(f)`: removes the first key matching `f` from the first
   * entry holding one and returns it; an entry left without keys is
   * removed from the store. Unknown fingerprints change nothing.
   */
  function DeleteKey(st: Store, f: string): (r: (Store, Option<PubKey>))
    requires st.Valid()
    ensures r.0.Valid()
    ensures r.1.Some? <==> HasFingerprint(st, f)
    ensures r.1.Some? ==> Matches(r.1.value, f) && r.1.value == StoredKey(st, f)
    ensures r.1.None? ==> r.0 == st
  {
    match FindEntryKey(st, f)
    case None => (st, None)
    case Some(h) =>
      var e := st.values[h];
      var i := FirstMatch(e.pubKeys, f).value;
      var rest := RemoveAt(e.pubKeys, i);
      if rest == [] then (st.Delete(h), Some(e.pubKeys[i]))
      else (st.Put(h, Entry(e.uid, rest)), Some(e.pubKeys[i]))
  }

  /**
   * `updatePubKey(f, commit)`, given the key read from the commit: the first
   * key matching `f` is replaced in place by `newKey`; the old and the new
   * key are returned.
   */
  function UpdateKey(st: Store, f: string, newKey: PubKey): (r: (Store, PubKey, PubKey))
    requires st.Valid() && HasFingerprint(st, f)
    ensures r.0.Valid()
    ensures Matches(r.1, f) && r.1 == StoredKey(st, f) && r.2 == newKey
    ensures r.0.keys == st.keys
  {
    var h := FindEntryKey(st, f).value;
    var e := st.values[h];
    var i := FirstMatch(e.pubKeys, f).value;
    (st.Put(h, Entry(e.uid, e.pubKeys[i := newKey])), e.pubKeys[i], newKey)
  }

  /**
   * What `deletePubKey(f)` leaves: the entry holding the key found loses
   * exactly that key and keeps its user IDs, or is dropped, with its hash,
   * when that was its only key; every other entry is as it was.
   */
  lemma {:induction false} DeleteKeyEffect(st: Store, f: string)
    requires st.Valid() && HasFingerprint(st, f)
    ensures var st' := DeleteKey(st, f).0;
      var h := FindEntryKey(st, f).value;
      var e := st.values[h];
      var i := FirstMatch(e.pubKeys, f).value;
      && (forall x :: x != h ==> (x in st'.values <==> x in st.values))
      && (forall x :: x != h && x in st.values ==> st'.values[x] == st.values[x])
      && (|e.pubKeys| == 1 ==> h !in st'.values && st'.keys == Without(st.keys, h))
      && (|e.pubKeys| > 1 ==> && st'.keys == st.keys && h in st'.values
                              && st'.values[h] == Entry(e.uid, RemoveAt(e.pubKeys, i)))
  {
  }

  /**
   * What `updatePubKey(f)` leaves: in the entry holding the key found, that
   * key, and only it, is now `newKey`; the user IDs, the hashes and every
   * other entry are as they were.
   */
  lemma {:induction false} UpdateKeyEffect(st: Store, f: string, newKey: PubKey)
    requires st.Valid() && HasFingerprint(st, f)
    ensures var st' := UpdateKey(st, f, newKey).0;
      var h := FindEntryKey(st, f).value;
      var e := st.values[h];
      var i := FirstMatch(e.pubKeys, f).value;
      && st'.keys == st.keys
      && (forall x :: x in st'.values <==> x in st.values)
      && (forall x :: x != h && x in st.values ==> st'.values[x] == st.values[x])
      && st'.values[h].uid == e.uid
      && |st'.values[h].pubKeys| == |e.pubKeys|
      && st'.values[h].pubKeys[i] == newKey
      && (forall j :: 0 <= j < |e.pubKeys| && j != i ==> st'.values[h].pubKeys[j] == e.pubKeys[j])
  {
  }

  /** Deleting a key that is there removes one key, and the whole entry when it was its last key. */
  lemma {:induction false} DeleteKeyCounts(st: Store, f: string)
    requires Valid(st)
    ensures var (st', k) := DeleteKey(st, f);
      && Valid(st')
      && KeyCount(st') == (if k.Some? then KeyCount(st) - 1 else KeyCount(st))
      && EntryCount(st') == (if k.Some? && |st.values[FindEntryKey(st, f).value].pubKeys| == 1
                             then EntryCount(st) - 1 else EntryCount(st))
  {
    match FindEntryKey(st, f)
    case None =>
    case Some(h) =>
      var e := st.values[h];
      var i := FirstMatch(e.pubKeys, f).value;
      var rest := RemoveAt(e.pubKeys, i);
      if rest == [] {
        DropEntryCounts(st, h);
      } else {
        ReplaceEntryCounts(st, h, Entry(e.uid, rest));
      }
  }

  lemma {:induction false} DropEntryCounts(st: Store, h: EntryKey)
    requires st.Valid() && h in st.values
    ensures KeyCount(st.Delete(h)) == KeyCount(st) - |st.values[h].pubKeys|
    ensures EntryCount(st.Delete(h)) == EntryCount(st) - 1
  {
    SumKeysWithout(st.keys, st.values, h);
    WithoutOnce(st.keys, h);
  }

  lemma {:induction false} ReplaceEntryCounts(st: Store, h: EntryKey, e: Entry)
    requires st.Valid() && h in st.values
    ensures KeyCount(st.Put(h, e)) == KeyCount(st) - |st.values[h].pubKeys| + |e.pubKeys|
    ensures EntryCount(st.Put(h, e)) == EntryCount(st)
  {
    SumKeysReplace(st.keys, st.values, h, e);
  }

  /** Deleting adds nothing: every fingerprint held afterwards was held, by the same entry, before. */
  lemma {:induction false} DeleteKeyOnlyShrinks(st: Store, f: string, h: EntryKey, g: string)
    requires st.Valid()
    ensures Holds(DeleteKey(st, f).0, h, g) ==> Holds(st, h, g)
  {
    var st' := DeleteKey(st, f).0;
    if Holds(st', h, g) && FindEntryKey(st, f).Some? && h == FindEntryKey(st, f).value {
      var e := st.values[h];
      var i := FirstMatch(e.pubKeys, f).value;
      var rest := RemoveAt(e.pubKeys, i);
      var j :| 0 <= j < |rest| && Matches(rest[j], g);
      if j < i {
        assert Matches(e.pubKeys[j], g);
      } else {
        assert Matches(e.pubKeys[j + 1], g);
      }
    }
  }

  /** Under unique fingerprints, a deleted fingerprint is gone from the store and uniqueness is kept. */
  lemma {:induction false} DeleteKeyRemovesFingerprint(st: Store, f: string)
    requires st.Valid() && UniqueFingerprints(st)
    ensures UniqueFingerprints(DeleteKey(st, f).0)
    ensures !HasFingerprint(DeleteKey(st, f).0, f)
  {
    var st' := DeleteKey(st, f).0;
    forall h, g | Holds(st', h, g) ensures Holds(st, h, g) {
      DeleteKeyOnlyShrinks(st, f, h, g);
    }
    match FindEntryKey(st, f)
    case None =>
      HasFingerprintIff(st, f);
    case Some(h0) =>
      HasFingerprintIff(st, f);
      var e := st.values[h0];
      var i := FirstMatch(e.pubKeys, f).value;
      var rest := RemoveAt(e.pubKeys, i);
      forall h | h in st'.values ensures DistinctFingerprints(st'.values[h].pubKeys) {
        if h == h0 {
          assert st'.values[h].pubKeys == rest;
          forall a, b | 0 <= a < b < |rest|
            ensures ToUpper(rest[a].fingerprint) != ToUpper(rest[b].fingerprint)
          {
            var a' := if a < i then a else a + 1;
            var b' := if b < i then b else b + 1;
            assert rest[a] == e.pubKeys[a'] && rest[b] == e.pubKeys[b'];
          }
        }
      }
      forall h | true ensures !Holds(st', h, f) {
        if h == h0 && h in st'.values {
          forall j | 0 <= j < |rest| ensures !Matches(rest[j], f) {
            var j' := if j < i then j else j + 1;
            assert rest[j] == e.pubKeys[j'];
            assert ToUpper(e.pubKeys[j'].fingerprint) != ToUpper(e.pubKeys[i].fingerprint);
          }
        }
      }
      HasFingerprintIff(st', f);
  }

  /** Replacing a key keeps the entries, their order and the number of keys. */
  lemma {:induction false} UpdateKeyCounts(st: Store, f: string, newKey: PubKey)
    requires Valid(st) && HasFingerprint(st, f)
    ensures var st' := UpdateKey(st, f, newKey).0;
      && Valid(st')
      && KeyCount(st') == KeyCount(st) && EntryCount(st') == EntryCount(st)
  {
    var h0 := FindEntryKey(st, f).value;
    var e := st.values[h0];
    var i := FirstMatch(e.pubKeys, f).value;
    SumKeysReplace(st.keys, st.values, h0, Entry(e.uid, e.pubKeys[i := newKey]));
  }

  /**
   * Replacing a key by one with the same fingerprint keeps every lookup:
   * each entry holds the same fingerprints as before, so uniqueness is kept.
   */
  lemma {:induction false} UpdateKeyKeepsLookups(st: Store, f: string, newKey: PubKey)
    requires st.Valid() && HasFingerprint(st, f) && Matches(newKey, f)
    ensures var st' := UpdateKey(st, f, newKey).0;
      && (forall h, g :: Holds(st', h, g) <==> Holds(st, h, g))
      && (UniqueFingerprints(st) ==> UniqueFingerprints(st'))
  {
    UpdateKeyKeepsHolds(st, f, newKey);
  }

  lemma {:induction false} UpdateKeyKeepsHolds(st: Store, f: string, newKey: PubKey)
    requires st.Valid() && HasFingerprint(st, f) && Matches(newKey, f)
    ensures var st' := UpdateKey(st, f, newKey).0;
      forall h, g :: Holds(st', h, g) <==> Holds(st, h, g)
  {
    var st' := UpdateKey(st, f, newKey).0;
    var h0 := FindEntryKey(st, f).value;
    var e := st.values[h0];
    var i := FirstMatch(e.pubKeys, f).value;
    var ks' := e.pubKeys[i := newKey];
    assert forall j :: 0 <= j < |ks'| ==> ToUpper(ks'[j].fingerprint) == ToUpper(e.pubKeys[j].fingerprint);
    forall h, g ensures Holds(st', h, g) <==> Holds(st, h, g) {
      if h == h0 {
        if Holds(st, h, g) {
          var j :| 0 <= j < |e.pubKeys| && Matches(e.pubKeys[j], g);
          assert Matches(ks'[j], g);
        }
        if Holds(st', h, g) {
          var j :| 0 <= j < |ks'| && Matches(ks'[j], g);
          assert Matches(e.pubKeys[j], g);
        }
      }
    }
  }

  lemma {:induction false} FirstHoldingSameHolds(hs: seq<EntryKey>, st: Store, st': Store, g: string)
    requires forall h :: Holds(st', h, g) == Holds(st, h, g)
    ensures FirstHolding(hs, st', g) == FirstHolding(hs, st, g)
  {
    if hs != [] {
      FirstHoldingSameHolds(hs[1..], st, st', g);
    }
  }

  lemma {:induction false} FirstMatchSameFingerprints(a: seq<PubKey>, b: seq<PubKey>, g: string)
    requires |a| == |b| && forall j :: 0 <= j < |a| ==> ToUpper(a[j].fingerprint) == ToUpper(b[j].fingerprint)
    ensures FirstMatch(a, g) == FirstMatch(b, g)
  {
    if a != [] {
      FirstMatchSameFingerprints(a[1..], b[1..], g);
    }
  }

  /**
   * After `updatePubKey(f)` with a key for `f`, a lookup of `f` finds the
   * new key, and a lookup of any other fingerprint the store held finds the
   * key it found before.
   */
  lemma {:induction false} UpdateKeyStored(st: Store, f: string, newKey: PubKey)
    requires st.Valid() && HasFingerprint(st, f) && Matches(newKey, f)
    ensures var st' := UpdateKey(st, f, newKey).0;
      && HasFingerprint(st', f) && StoredKey(st', f) == newKey
      && forall g :: HasFingerprint(st, g) && ToUpper(g) != ToUpper(f) ==>
           HasFingerprint(st', g) && StoredKey(st', g) == StoredKey(st, g)
  {
    var st' := UpdateKey(st, f, newKey).0;
    var h := FindEntryKey(st, f).value;
    var pk := st.values[h].pubKeys;
    var i := FirstMatch(pk, f).value;
    UpdateKeyEffect(st, f, newKey);
    UpdateKeySameLookup(st, f, newKey, f);
    forall g | HasFingerprint(st, g) && ToUpper(g) != ToUpper(f)
      ensures HasFingerprint(st', g) && StoredKey(st', g) == StoredKey(st, g)
    {
      UpdateKeySameLookup(st, f, newKey, g);
      if FindEntryKey(st, g).value == h {
        assert FirstMatch(pk, g).value != i;
      }
    }
  }

  /** Replacing a key by one for the same fingerprint leaves every lookup pointing at the same place. */
  lemma {:induction false} UpdateKeySameLookup(st: Store, f: string, newKey: PubKey, g: string)
    requires st.Valid() && HasFingerprint(st, f) && Matches(newKey, f)
    ensures var st' := UpdateKey(st, f, newKey).0;
      var h := FindEntryKey(st, f).value;
      && FindEntryKey(st', g) == FindEntryKey(st, g)
      && FirstMatch(st'.values[h].pubKeys, g) == FirstMatch(st.values[h].pubKeys, g)
  {
    var st' := UpdateKey(st, f, newKey).0;
    var h := FindEntryKey(st, f).value;
    var pk := st.values[h].pubKeys;
    var pk' := st'.values[h].pubKeys;
    UpdateKeyEffect(st, f, newKey);
    UpdateKeyKeepsHolds(st, f, newKey);
    assert forall j :: 0 <= j < |pk| ==> ToUpper(pk'[j].fingerprint) == ToUpper(pk[j].fingerprint);
    FirstMatchSameFingerprints(pk', pk, g);
    FirstHoldingSameHolds(st.keys, st, st', g);
  }
}
