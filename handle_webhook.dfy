/**
 * `handleWebhook`: the earlier revision of the push webhook. It runs the
 * same gate as `updateHook`, then only asks whether any pushed key file
 * names a key the store holds. The updates themselves are not written, so
 * every accepted push gets `{ ok: true, action: null }`. The handler only
 * reads the store, so it is modelled as a function of the store.
 */
module HandleWebhook {
  import opened Text
  import opened Keys
  import opened Webhook
  import EntryStore
  import UpdateHook

  /** This revision's `filterKeyFiles`: the paths under "keys/", without that prefix; a ".asc" is kept. */
  function KeyPaths(files: seq<string>): (r: seq<string>)
    ensures |r| == |UpdateHook.KeepKeys(files)|
    ensures forall i :: 0 <= i < |r| ==> "keys/" + r[i] == UpdateHook.KeepKeys(files)[i]
  {
    var kept := UpdateHook.KeepKeys(files);
    assert forall i :: 0 <= i < |kept| ==> kept[i] in kept;
    seq(|kept|, i requires 0 <= i < |kept| => Substring(kept[i], |"keys/"|))
  }

  /** The later revision's filter is this one followed by dropping one trailing ".asc". */
  lemma {:induction false} LaterFilterStripsAsc(files: seq<string>)
    ensures UpdateHook.FilterKeyFiles(files)
      == seq(|KeyPaths(files)|, i requires 0 <= i < |KeyPaths(files)| => UpdateHook.StripAsc(KeyPaths(files)[i]))
  {
  }

  /** A key file named after a fingerprint gives the file name, ".asc" included, not the fingerprint. */
  lemma {:induction false} KeyFileKeepsAsc(fp: string)
    ensures KeyPaths(["keys/" + fp + ".asc"]) == [fp + ".asc"]
  {
    var p := "keys/" + fp + ".asc";
    var ps: seq<string> := [p];
    assert ps[1..] == [];
    assert p[..5] == "keys/";
    assert UpdateHook.KeepKeys(ps) == ps;
    assert p[5..] == fp + ".asc";
  }

  /** `fs.some(f => wkd.hasFingerprint(f))`. */
  function AnyHeld(st: EntryStore.Store, fs: seq<string>): (r: bool)
    ensures r <==> exists i :: 0 <= i < |fs| && EntryStore.HasFingerprint(st, fs[i])
  {
    if fs == [] then false
    else EntryStore.HasFingerprint(st, fs[0]) || AnyHeld(st, fs[1..])
  }

  /** Which `return` an accepted push reaches. */
  datatype Exit = NoKnownModified | NoKnownRemoved | End

  datatype Outcome = Rejected(rejection: Rejection) | Accepted(exit: Exit)

  /** What the client receives: the rejection, or `{ ok: true, action: null }`. */
  datatype Reply = Refused(rejection: Rejection) | NoAction

  function ReplyOf(o: Outcome): Reply {
    match o
    case Rejected(rej) => Refused(rej)
    case Accepted(_) => NoAction
  }

  /** The keys named by the modified and by the removed key files of a push. */
  function ModifiedNames(req: Request): seq<string> {
    KeyPaths(UpdateHook.ModifiedPaths(req.body.commits))
  }

  function RemovedNames(req: Request): seq<string> {
    KeyPaths(UpdateHook.RemovedPaths(req.body.commits))
  }

  /** The handler on the store `st`: the gate, then the two lookups, modified first. */
  function Decide(env: HookEnv, req: Request, st: EntryStore.Store): (r: Outcome)
    ensures r.Rejected? <==> Gate(env, req).Some?
  {
    match Gate(env, req)
    case Some(rej) => Rejected(rej)
    case None =>
      var modified := ModifiedNames(req);
      var removed := RemovedNames(req);
      if |modified| > 0 && !AnyHeld(st, modified) then Accepted(NoKnownModified)
      else if |removed| > 0 && !AnyHeld(st, removed) then Accepted(NoKnownRemoved)
      else Accepted(End)
  }

  /**
   * Each exit in terms of what the store holds: the modified names are
   * looked at first, and the removed names only when no modified name is
   * unknown to the store or none was pushed.
   */
  lemma {:induction false} DecideExits(env: HookEnv, req: Request, st: EntryStore.Store)
    ensures Decide(env, req, st) == Accepted(NoKnownModified) <==>
      && Gate(env, req).None?
      && ModifiedNames(req) != []
      && forall i :: 0 <= i < |ModifiedNames(req)| ==> !EntryStore.HasFingerprint(st, ModifiedNames(req)[i])
    ensures Decide(env, req, st) == Accepted(NoKnownRemoved) <==>
      && Gate(env, req).None?
      && (ModifiedNames(req) == [] || exists i :: 0 <= i < |ModifiedNames(req)| && EntryStore.HasFingerprint(st, ModifiedNames(req)[i]))
      && RemovedNames(req) != []
      && forall i :: 0 <= i < |RemovedNames(req)| ==> !EntryStore.HasFingerprint(st, RemovedNames(req)[i])
  {
  }

  /** Every push that passes the gate is answered `{ ok: true, action: null }`, whatever the store holds. */
  lemma {:induction false} AcceptedGetsNoAction(env: HookEnv, req: Request, st: EntryStore.Store)
    ensures ReplyOf(Decide(env, req, st)) == if Gate(env, req).Some? then Refused(Gate(env, req).value) else NoAction
  {
  }

  /** Both revisions reject the same requests with the same status and error. */
  lemma {:induction false} SameGateAsUpdateHook(env: HookEnv, isDomain: string -> bool, req: Request, st: EntryStore.Store,
                             resolve: (string, string) -> PubKey)
    requires EntryStore.Valid(st) && UpdateHook.NamedByFingerprint(resolve)
    ensures var resp := UpdateHook.Hook(env, isDomain, req, st, resolve).1;
      && (Decide(env, req, st).Rejected? <==> resp.Rejected?)
      && (resp.Rejected? ==> Decide(env, req, st).rejection == resp.rejection)
  {
  }

  /** No key in the store has a '.' in its fingerprint, as hexadecimal fingerprints do not. */
  ghost predicate NoDottedFingerprints(st: EntryStore.Store) {
    forall h, j :: h in st.values && 0 <= j < |st.values[h].pubKeys| ==> '.' !in st.values[h].pubKeys[j].fingerprint
  }

  /** A name with a '.' in it matches no key of such a store. */
  lemma {:induction false} DottedNeverHeld(st: EntryStore.Store, name: string)
    requires st.Valid() && NoDottedFingerprints(st) && '.' in name
    ensures !EntryStore.HasFingerprint(st, name)
  {
    EntryStore.HasFingerprintIff(st, name);
  }

  /**
   * With fingerprints that have no '.', a push whose modified paths are
   * all key files "keys/<name>.asc" always ends at the first exit: the
   * ".asc" left on each name keeps it from matching any key.
   */
  lemma {:induction false} AscKeyFilesNeverKnown(env: HookEnv, req: Request, st: EntryStore.Store)
    requires st.Valid() && NoDottedFingerprints(st) && Gate(env, req).None?
    requires UpdateHook.ModifiedPaths(req.body.commits) != []
    requires forall p :: p in UpdateHook.ModifiedPaths(req.body.commits) ==>
      StartsWith(p, "keys/") && EndsWith(Substring(p, |"keys/"|), ".asc")
    ensures Decide(env, req, st) == Accepted(NoKnownModified)
  {
    var paths := UpdateHook.ModifiedPaths(req.body.commits);
    var names := ModifiedNames(req);
    var kept := UpdateHook.KeepKeys(paths);
    assert paths[0] in paths;
    assert kept == [paths[0]] + UpdateHook.KeepKeys(paths[1..]);
    forall i | 0 <= i < |names| ensures !EntryStore.HasFingerprint(st, names[i]) {
      assert kept[i] in kept;
      assert names[i] == Substring(kept[i], |"keys/"|);
      assert names[i][|names[i]| - 4] == '.';
      DottedNeverHeld(st, names[i]);
    }
  }
}
