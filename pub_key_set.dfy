/**
 * `PubKeySet`: the keys of one WKD entry, looked up by fingerprint and
 * served as one binary blob. The set holds key records and tells them apart
 * by identity only, so two records with the same fingerprint can both be
 * members; the model is the sequence of members in iteration order.
 */
module PubKeySets {
  import opened Wrappers
  import opened Text
  import opened Keys

  /** `Buffer.concat(parts)`. */
  function Concat(parts: seq<seq<byte>>): seq<byte> {
    if parts == [] then [] else parts[0] + Concat(parts[1..])
  }

  function TotalLength(parts: seq<seq<byte>>): nat {
    if parts == [] then 0 else |parts[0]| + TotalLength(parts[1..])
  }

  /** `p.data.toPacketList().write()`. */
  function Packets(k: PubKey): seq<byte> {
    k.packets
  }

  datatype PubKeySet = PubKeySet(members: seq<PubKey>) {

    function Size(): nat {
      |members|
    }

    /** `get(f)`: the first member, in iteration order, whose fingerprint is `f` ignoring case. */
    function Get(f: string): (r: Option<PubKey>)
      ensures r.Some? <==> exists i :: 0 <= i < |members| && Matches(members[i], f)
      ensures r.Some? ==> Matches(r.value, f)
      ensures r.Some? ==>
        exists i :: 0 <= i < |members| && members[i] == r.value && (forall j :: 0 <= j < i ==> !Matches(members[j], f))
    {
      match FirstMatch(members, f)
      case None => None
      case Some(i) => Some(members[i])
    }

    /** `hasFingerprint(f)`. */
    predicate HasFingerprint(f: string) {
      Get(f).Some?
    }

    /** `toArray()`: the members in iteration order. */
    function ToArray(): (r: seq<PubKey>)
      ensures |r| == Size()
      ensures forall i :: 0 <= i < |r| ==> r[i] == members[i]
    {
      members
    }

    /** `map(fn)`: one result per member, in iteration order. */
    function Map<R>(fn: PubKey -> R): (r: seq<R>)
      ensures |r| == Size()
      ensures forall i :: 0 <= i < |r| ==> r[i] == fn(members[i])
    {
      var a := ToArray();
      seq(|a|, i requires 0 <= i < |a| => fn(a[i]))
    }

    /** `combineBinary()`: every member's packets, concatenated in iteration order. */
    function CombineBinary(): seq<byte> {
      Concat(Map(Packets))
    }
  }

  /** `hasFingerprint(f)` holds exactly when some member's fingerprint is `f`, ignoring case. */
  lemma {:induction false} HasFingerprintIff(s: PubKeySet, f: string)
    ensures s.HasFingerprint(f) <==> exists i :: 0 <= i < |s.members| && Matches(s.members[i], f)
  {
  }

  lemma {:induction false} FirstMatchIgnoresCase(ks: seq<PubKey>, f: string)
    ensures FirstMatch(ks, f) == FirstMatch(ks, ToUpper(f))
  {
    if ks != [] {
      MatchesIgnoresCase(ks[0], f);
      FirstMatchIgnoresCase(ks[1..], f);
    }
  }

  /** The lookup ignores the case of the fingerprint asked for. */
  lemma {:induction false} GetIgnoresCase(s: PubKeySet, f: string)
    ensures s.Get(f) == s.Get(ToUpper(f))
    ensures s.HasFingerprint(f) == s.HasFingerprint(ToUpper(f))
  {
    FirstMatchIgnoresCase(s.members, f);
  }

  /**
   * Two different records with the same fingerprint are both kept, and
   * `get` returns the one inserted first.
   */
  lemma {:induction false} DuplicatesKept(a: PubKey, b: PubKey)
    requires a != b && Matches(a, b.fingerprint)
    ensures PubKeySet([a, b]).Size() == 2
    ensures PubKeySet([a, b]).Get(b.fingerprint) == Some(a)
    ensures PubKeySet([b, a]).Get(a.fingerprint) == Some(b)
  {
    MatchesIgnoresCase(b, a.fingerprint);
  }

  lemma {:induction false} ConcatLength(parts: seq<seq<byte>>)
    ensures |Concat(parts)| == TotalLength(parts)
  {
    if parts != [] {
      ConcatLength(parts[1..]);
    }
  }

  lemma {:induction false} ConcatAppend(a: seq<seq<byte>>, b: seq<seq<byte>>)
    ensures Concat(a + b) == Concat(a) + Concat(b)
  {
    if a == [] {
      assert a + b == b;
    } else {
      assert (a + b)[1..] == a[1..] + b;
      ConcatAppend(a[1..], b);
    }
  }

  /** Part `i` sits in the concatenation right after the parts before it. */
  lemma {:induction false} ConcatPart(parts: seq<seq<byte>>, i: nat)
    requires i < |parts|
    ensures var off := TotalLength(parts[..i]);
      off + |parts[i]| <= |Concat(parts)| && Concat(parts)[off..off + |parts[i]|] == parts[i]
  {
    assert parts == parts[..i] + ([parts[i]] + parts[i + 1..]);
    ConcatAppend(parts[..i], [parts[i]] + parts[i + 1..]);
    ConcatAppend([parts[i]], parts[i + 1..]);
    assert Concat([parts[i]]) == parts[i] by {
      assert [parts[i]][1..] == [];
    }
    ConcatLength(parts[..i]);
  }

  /** The blob is as long as all members' packets together, and holds each member's packets at its offset. */
  lemma {:induction false} CombineBinaryLayout(s: PubKeySet, i: nat)
    requires i < |s.members|
    ensures |s.CombineBinary()| == TotalLength(s.Map(Packets))
    ensures var parts := s.Map(Packets);
      var off := TotalLength(parts[..i]);
      off + |s.members[i].packets| <= |s.CombineBinary()|
      && s.CombineBinary()[off..off + |s.members[i].packets|] == s.members[i].packets
  {
    ConcatLength(s.Map(Packets));
    ConcatPart(s.Map(Packets), i);
  }

  /** The blob of a union of two member lists is the two blobs one after the other. */
  lemma {:induction false} CombineBinaryAppend(a: seq<PubKey>, b: seq<PubKey>)
    ensures PubKeySet(a + b).CombineBinary() == PubKeySet(a).CombineBinary() + PubKeySet(b).CombineBinary()
  {
    assert PubKeySet(a + b).Map(Packets) == PubKeySet(a).Map(Packets) + PubKeySet(b).Map(Packets);
    ConcatAppend(PubKeySet(a).Map(Packets), PubKeySet(b).Map(Packets));
  }
}
