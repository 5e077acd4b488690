/**
 * Public keys as abstract records. The key parser is a foreign library, so a
 * key is represented by what the core reads from it: the fingerprint, the
 * creation time, the user IDs, the expiry, the etag of the fetch that
 * produced it, and its serialised packets.
 */
module Keys {
  import opened Wrappers
  import opened Text

  newtype byte = x: int | 0 <= x < 256

  /** One user ID packet: the whole user ID text and its e-mail part ("" when it has none). */
  datatype UserId = UserId(userID: string, email: string)

  datatype PubKey = PubKey(
    fingerprint: string,
    created: int,              // creation time in milliseconds
    users: seq<UserId>,
    expiry: Option<int>,       // None: the key never expires
    etag: string,
    packets: seq<byte>)        // `toPacketList().write()`

  /** `pubKeyURL(file)`: the URL of a key file, identified by the file name it is built from. */
  datatype Url = KeyFileUrl(file: string)

  /** `getUserIDs()`. */
  function UserIDs(k: PubKey): (r: seq<string>)
    ensures |r| == |k.users|
    ensures forall i :: 0 <= i < |r| ==> r[i] == k.users[i].userID
  {
    seq(|k.users|, i requires 0 <= i < |k.users| => k.users[i].userID)
  }

  /** The fingerprint test used by every lookup: upper-cased fingerprints are equal. */
  predicate Matches(k: PubKey, f: string) {
    ToUpper(k.fingerprint) == ToUpper(f)
  }

  lemma {:induction false} MatchesIgnoresCase(k: PubKey, f: string)
    ensures Matches(k, f) <==> Matches(k, ToUpper(f))
  {
    ToUpperIdempotent(f);
  }

  /** `pubKeys.some(p => <p matches f>)`. */
  predicate AnyMatches(ks: seq<PubKey>, f: string) {
    exists i :: 0 <= i < |ks| && Matches(ks[i], f)
  }

  /** The position of the first key that matches `f`, if any. */
  function FirstMatch(ks: seq<PubKey>, f: string): (r: Option<nat>)
    ensures r.Some? ==> r.value < |ks| && Matches(ks[r.value], f)
    ensures r.Some? ==> forall j :: 0 <= j < r.value ==> !Matches(ks[j], f)
    ensures r.None? <==> !AnyMatches(ks, f)
  {
    if ks == [] then None
    else if Matches(ks[0], f) then Some(0)
    else match FirstMatch(ks[1..], f)
      case None => None
      case Some(i) => Some(i + 1)
  }

  /** The first match does not depend on the case of the fingerprint asked for. */
  lemma {:induction false} FirstMatchIgnoresCase(ks: seq<PubKey>, f: string)
    ensures FirstMatch(ks, f) == FirstMatch(ks, ToUpper(f))
  {
    ToUpperIdempotent(f);
    if ks != [] {
      FirstMatchIgnoresCase(ks[1..], f);
    }
  }

  // ---------------------------------------------------------------------
  // Newest-first order: `sort((a, b) => b.created - a.created)`.
  // JavaScript's sort is stable, so keys created at the same time keep
  // their original relative order.
  // ---------------------------------------------------------------------

  ghost predicate NewestFirst(ks: seq<PubKey>) {
    forall i, j :: 0 <= i < j < |ks| ==> ks[i].created >= ks[j].created
  }

  /** The keys created at time `t`, in their order in `ks`. */
  function CreatedAt(ks: seq<PubKey>, t: int): seq<PubKey> {
    if ks == [] then []
    else (if ks[0].created == t then [ks[0]] else []) + CreatedAt(ks[1..], t)
  }

  /** Places `k` before the first key that is not newer than it. */
  function Insert(k: PubKey, ks: seq<PubKey>): (r: seq<PubKey>)
    ensures multiset(r) == multiset(ks) + multiset{k}
    ensures |r| == |ks| + 1
    ensures r[0] == k || (ks != [] && r[0] == ks[0])
  {
    if ks == [] || k.created >= ks[0].created then [k] + ks
    else
      assert ks == [ks[0]] + ks[1..];
      [ks[0]] + Insert(k, ks[1..])
  }

  /** Inserting into a newest-first list keeps it newest first. */
  lemma {:induction false} InsertSorted(k: PubKey, ks: seq<PubKey>)
    requires NewestFirst(ks)
    ensures NewestFirst(Insert(k, ks))
  {
    var r := Insert(k, ks);
    if ks == [] || k.created >= ks[0].created {
      assert r == [k] + ks;
      forall i, j | 0 <= i < j < |r| ensures r[i].created >= r[j].created {
        assert r[j] == ks[j - 1];
        if i > 0 {
          assert r[i] == ks[i - 1];
        } else if j > 1 {
          assert ks[0].created >= ks[j - 1].created;
        }
      }
    } else {
      var rest := Insert(k, ks[1..]);
      assert r == [ks[0]] + rest;
      assert NewestFirst(ks[1..]) by {
        forall i, j | 0 <= i < j < |ks[1..]| ensures ks[1..][i].created >= ks[1..][j].created {
          assert ks[1..][i] == ks[i + 1] && ks[1..][j] == ks[j + 1];
        }
      }
      InsertSorted(k, ks[1..]);
      assert rest[0].created <= ks[0].created by {
        if rest[0] != k {
          assert rest[0] == ks[1];
        }
      }
      forall i, j | 0 <= i < j < |r| ensures r[i].created >= r[j].created {
        assert r[j] == rest[j - 1];
        if i > 0 {
          assert r[i] == rest[i - 1];
        } else if j > 1 {
          assert rest[0].created >= rest[j - 1].created;
        }
      }
    }
  }

  function SortNewestFirst(ks: seq<PubKey>): (r: seq<PubKey>)
    ensures multiset(r) == multiset(ks)
    ensures |r| == |ks|
    ensures NewestFirst(r)
  {
    if ks == [] then []
    else
      assert ks == [ks[0]] + ks[1..];
      var rest := SortNewestFirst(ks[1..]);
      InsertSorted(ks[0], rest);
      Insert(ks[0], rest)
  }

  lemma {:induction false} InsertKeepsTies(k: PubKey, ks: seq<PubKey>, t: int)
    ensures CreatedAt(Insert(k, ks), t) == (if k.created == t then [k] else []) + CreatedAt(ks, t)
  {
    if ks == [] || k.created >= ks[0].created {
      assert ([k] + ks)[1..] == ks;
    } else {
      InsertKeepsTies(k, ks[1..], t);
      assert ([ks[0]] + Insert(k, ks[1..]))[1..] == Insert(k, ks[1..]);
    }
  }

  /** The sort is stable: the keys of one creation time keep their relative order. */
  lemma {:induction false} SortIsStable(ks: seq<PubKey>, t: int)
    ensures CreatedAt(SortNewestFirst(ks), t) == CreatedAt(ks, t)
  {
    if ks != [] {
      SortIsStable(ks[1..], t);
      InsertKeepsTies(ks[0], SortNewestFirst(ks[1..]), t);
    }
  }
}
