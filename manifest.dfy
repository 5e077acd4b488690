/**
 * The manifest (`map.txt`) grammar shared by both revisions:
 *
 *   /^U: (?<UID>.+)\nW: (?<wkdHash>.+)\n(?<pubKeyFiles>(?<pubKeyFile>P: .+\n)*)/gm
 *
 * It is modelled as a tokenizer that cuts the text into lines at every
 * JavaScript line terminator and types each line, a specification `Groups`
 * of what successive `exec` calls return, and the grouping state machine
 * `ScanGroups` (ExpectU -> ExpectW -> CollectP) proved to agree with it.
 */
module Manifest {
  import opened Text

  /** Text that `.+` matches: at least one character, none of them a line terminator. */
  predicate IsPayload(s: string) {
    |s| > 0 && forall i :: 0 <= i < |s| ==> !IsLineTerminator(s[i])
  }

  type Payload = s: string | IsPayload(s) witness "x"

  /** A line as the pattern sees it. Only a line ended by '\n' can be part of a match. */
  datatype Line = ULine(uid: Payload) | WLine(hash: Payload) | PLine(file: Payload) | Other

  /** The text between two line terminators, and whether the terminator after it is '\n'. */
  datatype Segment = Segment(text: string, newline: bool)

  function TerminatorIndex(s: string): (i: nat)
    ensures i <= |s|
    ensures forall j :: 0 <= j < i ==> !IsLineTerminator(s[j])
    ensures i < |s| ==> IsLineTerminator(s[i])
  {
    if s == [] || IsLineTerminator(s[0]) then 0 else 1 + TerminatorIndex(s[1..])
  }

  /** The text cut at every line terminator; a multiline `^` matches exactly at the start of each piece. */
  function Segments(s: string): seq<Segment>
    decreases |s|
  {
    if s == [] then []
    else
      var i := TerminatorIndex(s);
      if i == |s| then [Segment(s, false)]
      else [Segment(s[..i], s[i] == '\n')] + Segments(s[i + 1..])
  }

  function Classify(seg: Segment): Line {
    if !seg.newline || |seg.text| < 3 then Other
    else
      var tag, rest := seg.text[..3], seg.text[3..];
      if !IsPayload(rest) then Other
      else if tag == "U: " then ULine(rest)
      else if tag == "W: " then WLine(rest)
      else if tag == "P: " then PLine(rest)
      else Other
  }

  function ClassifySegments(segs: seq<Segment>): (ls: seq<Line>)
    ensures |ls| == |segs|
    ensures forall i :: 0 <= i < |segs| ==> ls[i] == Classify(segs[i])
  {
    seq(|segs|, i requires 0 <= i < |segs| => Classify(segs[i]))
  }

  function Tokenize(text: string): (ls: seq<Line>)
    ensures |ls| == |Segments(text)|
  {
    ClassifySegments(Segments(text))
  }

  // ---------------------------------------------------------------------
  // What the pattern matches
  // ---------------------------------------------------------------------

  /** One match: the groups UID, wkdHash and the P lines' file names. */
  datatype Group = Group(uid: Payload, hash: Payload, files: seq<Payload>)

  /** The number of P lines at the start of `ls`. */
  function PRun(ls: seq<Line>): (n: nat)
    ensures n <= |ls|
    ensures forall i :: 0 <= i < n ==> ls[i].PLine?
    ensures n < |ls| ==> !ls[n].PLine?
  {
    if ls == [] || !ls[0].PLine? then 0 else 1 + PRun(ls[1..])
  }

  function Files(ls: seq<Line>): (fs: seq<Payload>)
    requires forall i :: 0 <= i < |ls| ==> ls[i].PLine?
    ensures |fs| == |ls|
    ensures forall i :: 0 <= i < |ls| ==> fs[i] == ls[i].file
  {
    seq(|ls|, i requires 0 <= i < |ls| => ls[i].file)
  }

  /**
   * The matches successive `exec` calls return: scanning left to right, a
   * U line directly followed by a W line starts a match that takes every P
   * line after them; any other line is passed over.
   */
  function Groups(ls: seq<Line>): seq<Group>
    decreases |ls|
  {
    if |ls| < 2 then []
    else if ls[0].ULine? && ls[1].WLine? then
      var n := PRun(ls[2..]);
      [Group(ls[0].uid, ls[1].hash, Files(ls[2..2 + n]))] + Groups(ls[2 + n..])
    else Groups(ls[1..])
  }

  lemma {:induction false} GroupsSkip(ls: seq<Line>)
    requires |ls| >= 1
    requires !(|ls| >= 2 && ls[0].ULine? && ls[1].WLine?)
    ensures Groups(ls) == Groups(ls[1..])
  {
  }

  lemma {:induction false} PRunExact(ls: seq<Line>, n: nat)
    requires n <= |ls|
    requires forall j :: 0 <= j < n ==> ls[j].PLine?
    requires n < |ls| ==> !ls[n].PLine?
    ensures PRun(ls) == n
  {
    if n > 0 {
      PRunExact(ls[1..], n - 1);
    }
  }

  lemma {:induction false} GroupsAtMatch(ls: seq<Line>, k: nat)
    requires 2 <= k <= |ls| && ls[0].ULine? && ls[1].WLine?
    requires forall j :: 2 <= j < k ==> ls[j].PLine?
    requires k < |ls| ==> !ls[k].PLine?
    ensures Groups(ls) == [Group(ls[0].uid, ls[1].hash, Files(ls[2..k]))] + Groups(ls[k..])
  {
    PRunExact(ls[2..], k - 2);
    assert ls[2..][..k - 2] == ls[2..k];
  }

  lemma {:induction false} ConcatAssoc<T>(a: seq<T>, b: seq<T>, c: seq<T>)
    ensures a + b + c == a + (b + c)
  {
  }

  // The scan below works on positions in `ls` rather than on its suffixes.

  /** The first position at or after `a` that does not hold a P line. */
  function PEnd(ls: seq<Line>, a: nat): (e: nat)
    requires a <= |ls|
    ensures a <= e <= |ls|
    ensures forall j :: a <= j < e ==> ls[j].PLine?
    ensures e < |ls| ==> !ls[e].PLine?
    decreases |ls| - a
  {
    if a == |ls| || !ls[a].PLine? then a else PEnd(ls, a + 1)
  }

  lemma {:induction false} PEndExact(ls: seq<Line>, a: nat, e: nat)
    requires a <= e <= |ls|
    requires forall j :: a <= j < e ==> ls[j].PLine?
    requires e < |ls| ==> !ls[e].PLine?
    ensures PEnd(ls, a) == e
    decreases e - a
  {
    if a < e {
      PEndExact(ls, a + 1, e);
    }
  }

  /** The file names of the P lines at positions `a` up to `b`. */
  function FilesIn(ls: seq<Line>, a: nat, b: nat): (fs: seq<Payload>)
    requires a <= b <= |ls| && forall j :: a <= j < b ==> ls[j].PLine?
    ensures |fs| == b - a
    ensures forall j :: 0 <= j < b - a ==> fs[j] == ls[a + j].file
  {
    seq(b - a, j requires 0 <= j < b - a => ls[a + j].file)
  }

  /** `Groups(ls[k..])`, computed by position. */
  function GroupsFrom(ls: seq<Line>, k: nat): seq<Group>
    requires k <= |ls|
    decreases |ls| - k
  {
    if |ls| - k < 2 then []
    else if ls[k].ULine? && ls[k + 1].WLine? then
      var e := PEnd(ls, k + 2);
      [Group(ls[k].uid, ls[k + 1].hash, FilesIn(ls, k + 2, e))] + GroupsFrom(ls, e)
    else GroupsFrom(ls, k + 1)
  }

  lemma {:induction false} SuffixAtMatch(ls: seq<Line>, k: nat)
    requires k + 2 <= |ls| && ls[k].ULine? && ls[k + 1].WLine?
    ensures var e := PEnd(ls, k + 2);
      Groups(ls[k..]) == [Group(ls[k].uid, ls[k + 1].hash, FilesIn(ls, k + 2, e))] + Groups(ls[e..])
  {
    var e := PEnd(ls, k + 2);
    var t := ls[k..];
    assert Groups(t) == [Group(t[0].uid, t[1].hash, Files(t[2..e - k]))] + Groups(t[e - k..]) by {
      forall j | 2 <= j < e - k
        ensures t[j].PLine?
      {
        assert t[j] == ls[k + j];
      }
      assert e - k < |t| ==> t[e - k] == ls[e];
      GroupsAtMatch(t, e - k);
    }
    assert t[0] == ls[k] && t[1] == ls[k + 1];
    assert Files(t[2..e - k]) == FilesIn(ls, k + 2, e) by {
      var mid := t[2..e - k];
      assert forall j :: 0 <= j < |mid| ==> mid[j] == ls[k + 2 + j];
    }
    assert t[e - k..] == ls[e..];
  }

  lemma {:induction false} SuffixSkip(ls: seq<Line>, k: nat)
    requires k + 2 <= |ls| && !(ls[k].ULine? && ls[k + 1].WLine?)
    ensures Groups(ls[k..]) == Groups(ls[k + 1..])
  {
    var t := ls[k..];
    assert t[0] == ls[k] && t[1] == ls[k + 1];
    assert t[1..] == ls[k + 1..];
  }

  lemma {:induction false} GroupsFromSuffix(ls: seq<Line>, k: nat)
    requires k <= |ls|
    ensures GroupsFrom(ls, k) == Groups(ls[k..])
    decreases |ls| - k
  {
    if |ls| - k >= 2 {
      if ls[k].ULine? && ls[k + 1].WLine? {
        SuffixAtMatch(ls, k);
        GroupsFromSuffix(ls, PEnd(ls, k + 2));
      } else {
        SuffixSkip(ls, k);
        GroupsFromSuffix(ls, k + 1);
      }
    }
  }

  datatype ScanState =
    | ExpectU
    | ExpectW(uid: Payload)
    | CollectP(uid: Payload, hash: Payload, files: seq<Payload>)

  /** One transition of the grouping state machine: the next state and the match it closes, if any. */
  function Step(state: ScanState, line: Line): (ScanState, seq<Group>) {
    match state
    case ExpectU =>
      (if line.ULine? then ExpectW(line.uid) else ExpectU, [])
    case ExpectW(u) =>
      if line.WLine? then (CollectP(u, line.hash, []), [])
      else if line.ULine? then (ExpectW(line.uid), [])
      else (ExpectU, [])
    case CollectP(u, h, fs) =>
      if line.PLine? then (CollectP(u, h, fs + [line.file]), [])
      else (if line.ULine? then ExpectW(line.uid) else ExpectU, [Group(u, h, fs)])
  }

  /** What the machine has still to emit when the lines run out. */
  function Finish(state: ScanState): seq<Group> {
    if state.CollectP? then [Group(state.uid, state.hash, state.files)] else []
  }

  /**
   * After `i` lines in `state`, `gs` holds the matches that end before
   * `pending`, and from `pending` on the lines read so far are the start of
   * the match the state describes.
   */
  ghost predicate ScanInv(ls: seq<Line>, i: nat, gs: seq<Group>, state: ScanState, pending: nat) {
    && pending <= i <= |ls|
    && gs + GroupsFrom(ls, pending) == GroupsFrom(ls, 0)
    && (state.ExpectU? ==> pending == i)
    && (state.ExpectW? ==> pending + 1 == i && ls[pending] == ULine(state.uid))
    && (state.CollectP? ==>
          && pending + 2 <= i
          && ls[pending] == ULine(state.uid) && ls[pending + 1] == WLine(state.hash)
          && (forall j :: pending + 2 <= j < i ==> ls[j].PLine?)
          && state.files == FilesIn(ls, pending + 2, i))
  }

  /** Passing over line `k` when it cannot start a match. */
  lemma {:induction false} SkipFrom(ls: seq<Line>, k: nat, gs: seq<Group>)
    requires k < |ls| && gs + GroupsFrom(ls, k) == GroupsFrom(ls, 0)
    requires !(k + 1 < |ls| && ls[k].ULine? && ls[k + 1].WLine?)
    ensures gs + GroupsFrom(ls, k + 1) == GroupsFrom(ls, 0)
  {
    assert GroupsFrom(ls, k) == GroupsFrom(ls, k + 1);
  }

  /** Closing the match `g` that starts at `pending` on the first position `i` that is not a P line. */
  lemma {:induction false} CloseGroup(ls: seq<Line>, i: nat, gs: seq<Group>, g: Group, pending: nat)
    requires pending + 2 <= i <= |ls|
    requires gs + GroupsFrom(ls, pending) == GroupsFrom(ls, 0)
    requires ls[pending] == ULine(g.uid) && ls[pending + 1] == WLine(g.hash)
    requires forall j :: pending + 2 <= j < i ==> ls[j].PLine?
    requires g.files == FilesIn(ls, pending + 2, i)
    requires i < |ls| ==> !ls[i].PLine?
    ensures (gs + [g]) + GroupsFrom(ls, i) == GroupsFrom(ls, 0)
  {
    assert GroupsFrom(ls, pending) == [g] + GroupsFrom(ls, i) by {
      PEndExact(ls, pending + 2, i);
    }
    ConcatAssoc(gs, [g], GroupsFrom(ls, i));
  }

  lemma {:induction false} StepKeepsInv(ls: seq<Line>, i: nat, gs: seq<Group>, state: ScanState, pending: nat)
    returns (pending': nat)
    requires i < |ls| && ScanInv(ls, i, gs, state, pending)
    ensures ScanInv(ls, i + 1, gs + Step(state, ls[i]).1, Step(state, ls[i]).0, pending')
  {
    match state {
      case ExpectU => pending' := StepFromU(ls, i, gs, pending);
      case ExpectW(u) => pending' := StepFromW(ls, i, gs, u, pending);
      case CollectP(u, h, fs) =>
        if ls[i].PLine? {
          CollectStep(ls, i, gs, u, h, fs, pending);
          pending' := pending;
        } else {
          pending' := CloseStep(ls, i, gs, u, h, fs, pending);
        }
    }
  }

  lemma {:induction false} StepFromU(ls: seq<Line>, i: nat, gs: seq<Group>, pending: nat) returns (pending': nat)
    requires i < |ls| && ScanInv(ls, i, gs, ExpectU, pending)
    ensures ScanInv(ls, i + 1, gs + Step(ExpectU, ls[i]).1, Step(ExpectU, ls[i]).0, pending')
  {
    assert gs + [] == gs;
    if ls[i].ULine? {
      pending' := pending;
    } else {
      SkipFrom(ls, i, gs);
      pending' := i + 1;
    }
  }

  lemma {:induction false} StepFromW(ls: seq<Line>, i: nat, gs: seq<Group>, u: Payload, pending: nat) returns (pending': nat)
    requires i < |ls| && ScanInv(ls, i, gs, ExpectW(u), pending)
    ensures ScanInv(ls, i + 1, gs + Step(ExpectW(u), ls[i]).1, Step(ExpectW(u), ls[i]).0, pending')
  {
    assert gs + [] == gs;
    var line := ls[i];
    if line.WLine? {
      pending' := pending;
      assert FilesIn(ls, pending + 2, i + 1) == [];
    } else if line.ULine? {
      SkipFrom(ls, i - 1, gs);
      pending' := i;
    } else {
      SkipFrom(ls, i - 1, gs);
      SkipFrom(ls, i, gs);
      pending' := i + 1;
    }
  }

  /** A P line extends the match being collected. */
  lemma {:induction false} CollectStep(ls: seq<Line>, i: nat, gs: seq<Group>, u: Payload, h: Payload, fs: seq<Payload>, pending: nat)
    requires i < |ls| && ScanInv(ls, i, gs, CollectP(u, h, fs), pending) && ls[i].PLine?
    ensures ScanInv(ls, i + 1, gs + Step(CollectP(u, h, fs), ls[i]).1, Step(CollectP(u, h, fs), ls[i]).0, pending)
  {
    assert gs + [] == gs;
    assert FilesIn(ls, pending + 2, i + 1) == FilesIn(ls, pending + 2, i) + [ls[i].file];
  }

  /** Any other line closes the match being collected. */
  lemma {:induction false} CloseStep(ls: seq<Line>, i: nat, gs: seq<Group>, u: Payload, h: Payload, fs: seq<Payload>, pending: nat)
    returns (pending': nat)
    requires i < |ls| && ScanInv(ls, i, gs, CollectP(u, h, fs), pending) && !ls[i].PLine?
    ensures ScanInv(ls, i + 1, gs + Step(CollectP(u, h, fs), ls[i]).1, Step(CollectP(u, h, fs), ls[i]).0, pending')
  {
    var g := Group(u, h, fs);
    CloseGroup(ls, i, gs, g, pending);
    if ls[i].ULine? {
      assert Step(CollectP(u, h, fs), ls[i]) == (ExpectW(ls[i].uid), [g]);
      pending' := i;
    } else {
      assert Step(CollectP(u, h, fs), ls[i]) == (ExpectU, [g]);
      SkipFrom(ls, i, gs + [g]);
      pending' := i + 1;
    }
  }

  lemma {:induction false} FinishCompletes(ls: seq<Line>, gs: seq<Group>, state: ScanState, pending: nat)
    requires ScanInv(ls, |ls|, gs, state, pending)
    ensures gs + Finish(state) == Groups(ls)
  {
    GroupsFromSuffix(ls, 0);
    assert ls[0..] == ls;
    if state.CollectP? {
      CloseGroup(ls, |ls|, gs, Group(state.uid, state.hash, state.files), pending);
      assert GroupsFrom(ls, |ls|) == [];
    } else {
      assert GroupsFrom(ls, pending) == [];
      assert gs + [] == gs;
    }
  }

  /** The grouping state machine; it returns the same matches as the pattern. */
  method ScanGroups(ls: seq<Line>) returns (gs: seq<Group>)
    ensures gs == Groups(ls)
  {
    gs := [];
    var state := ExpectU;
    var i := 0;
    ghost var pending := 0;
    assert [] + GroupsFrom(ls, 0) == GroupsFrom(ls, 0);
    while i < |ls|
      invariant ScanInv(ls, i, gs, state, pending)
    {
      pending := StepKeepsInv(ls, i, gs, state, pending);
      var (next, closed) := Step(state, ls[i]);
      gs := gs + closed;
      state := next;
      i := i + 1;
    }
    FinishCompletes(ls, gs, state, pending);
    gs := gs + Finish(state);
  }

  // ---------------------------------------------------------------------
  // The pubKeyFiles capture, and how both revisions read the file names
  // out of it: split("\n").filter(Boolean).map(p => p.substring("P: ".length))
  // ---------------------------------------------------------------------

  function JoinLines(lines: seq<string>): string {
    if lines == [] then "" else lines[0] + "\n" + JoinLines(lines[1..])
  }

  function PLines(files: seq<Payload>): (r: seq<string>)
    ensures |r| == |files|
    ensures forall i :: 0 <= i < |files| ==> r[i] == "P: " + files[i]
  {
    seq(|files|, i requires 0 <= i < |files| => "P: " + files[i])
  }

  /** The text of the `pubKeyFiles` group: the match's P lines, each with its newline. */
  function Capture(files: seq<Payload>): string {
    JoinLines(PLines(files))
  }

  /** `map(p => p.substring("P: ".length))`. */
  function StripTags(pieces: seq<string>): (r: seq<string>)
    ensures |r| == |pieces|
    ensures forall i :: 0 <= i < |pieces| ==> r[i] == Substring(pieces[i], 3)
  {
    seq(|pieces|, i requires 0 <= i < |pieces| => Substring(pieces[i], 3))
  }

  /** The file names both revisions read out of a `pubKeyFiles` capture. */
  function ExtractFiles(pubKeyFiles: string): seq<string> {
    StripTags(DropEmpty(Split(pubKeyFiles, '\n')))
  }

  lemma {:induction false} SplitCapture(files: seq<Payload>)
    ensures DropEmpty(Split(Capture(files), '\n')) == PLines(files)
  {
    if files != [] {
      var l := "P: " + files[0];
      assert forall i :: 0 <= i < |l| ==> l[i] != '\n' by {
        assert forall i :: 3 <= i < |l| ==> l[i] == files[0][i - 3];
      }
      assert PLines(files)[1..] == PLines(files[1..]);
      assert Capture(files) == l + ['\n'] + Capture(files[1..]);
      SplitAtFirst(l, '\n', Capture(files[1..]));
      SplitCapture(files[1..]);
      assert PLines(files) == [l] + PLines(files[1..]);
    }
  }

  /**
   * Each P line contributes its file name, with "P: " removed, in manifest
   * order; the empty piece after the last newline is the only one dropped.
   */
  lemma {:induction false} ExtractFilesOfCapture(files: seq<Payload>)
    ensures ExtractFiles(Capture(files)) == files
  {
    SplitCapture(files);
    var r := ExtractFiles(Capture(files));
    assert |r| == |files|;
    forall i | 0 <= i < |files|
      ensures r[i] == files[i]
    {
      assert ("P: " + files[i])[3..] == files[i];
    }
  }

  // ---------------------------------------------------------------------
  // Writing groups out and reading them back
  // ---------------------------------------------------------------------

  /** The lines that write a group: its U line, its W line and one P line per file. */
  function GroupLines(g: Group): seq<string> {
    ["U: " + g.uid, "W: " + g.hash] + PLines(g.files)
  }

  function RenderLines(gs: seq<Group>): seq<string> {
    if gs == [] then [] else GroupLines(gs[0]) + RenderLines(gs[1..])
  }

  /** A manifest that lists `gs`, every line ended by a newline. */
  function Render(gs: seq<Group>): string {
    JoinLines(RenderLines(gs))
  }

  /** The typed lines of `gs`, as the tokenizer should see them. */
  function TypedLines(gs: seq<Group>): seq<Line> {
    if gs == [] then []
    else
      [ULine(gs[0].uid), WLine(gs[0].hash)] + TypedPLines(gs[0].files) + TypedLines(gs[1..])
  }

  function TypedPLines(files: seq<Payload>): (r: seq<Line>)
    ensures |r| == |files|
    ensures forall i :: 0 <= i < |files| ==> r[i] == PLine(files[i])
  {
    seq(|files|, i requires 0 <= i < |files| => PLine(files[i]))
  }

  function ClassifyAll(lines: seq<string>): (r: seq<Line>)
    ensures |r| == |lines|
    ensures forall i :: 0 <= i < |lines| ==> r[i] == Classify(Segment(lines[i], true))
  {
    seq(|lines|, i requires 0 <= i < |lines| => Classify(Segment(lines[i], true)))
  }

  predicate NoTerminator(s: string) {
    forall i :: 0 <= i < |s| ==> !IsLineTerminator(s[i])
  }

  lemma {:induction false} TerminatorIndexOfLine(x: string, rest: string)
    requires NoTerminator(x)
    ensures TerminatorIndex(x + "\n" + rest) == |x|
  {
    if x == [] {
      assert (x + "\n" + rest)[0] == '\n';
    } else {
      assert (x + "\n" + rest)[1..] == x[1..] + "\n" + rest;
      TerminatorIndexOfLine(x[1..], rest);
    }
  }

  lemma {:induction false} SegmentsLine(x: string, rest: string)
    requires NoTerminator(x)
    ensures Segments(x + "\n" + rest) == [Segment(x, true)] + Segments(rest)
  {
    var s := x + "\n" + rest;
    TerminatorIndexOfLine(x, rest);
    assert s[..|x|] == x && s[|x|] == '\n' && s[|x| + 1..] == rest;
  }

  lemma {:induction false} ClassifySegmentsCons(seg: Segment, segs: seq<Segment>)
    ensures ClassifySegments([seg] + segs) == [Classify(seg)] + ClassifySegments(segs)
  {
    assert forall i :: 1 <= i <= |segs| ==> ([seg] + segs)[i] == segs[i - 1];
  }

  lemma {:induction false} TokenizeLine(x: string, rest: string)
    requires NoTerminator(x)
    ensures Tokenize(x + "\n" + rest) == [Classify(Segment(x, true))] + Tokenize(rest)
  {
    SegmentsLine(x, rest);
    ClassifySegmentsCons(Segment(x, true), Segments(rest));
  }

  lemma {:induction false} ClassifyAllAppend(a: seq<string>, b: seq<string>)
    ensures ClassifyAll(a + b) == ClassifyAll(a) + ClassifyAll(b)
  {
    assert forall i :: |a| <= i < |a| + |b| ==> (a + b)[i] == b[i - |a|];
  }

  lemma {:induction false} ClassifyAllCons(lines: seq<string>)
    requires lines != []
    ensures ClassifyAll(lines) == [Classify(Segment(lines[0], true))] + ClassifyAll(lines[1..])
  {
    ClassifyAllAppend([lines[0]], lines[1..]);
    assert [lines[0]] + lines[1..] == lines;
  }

  lemma {:induction false} JoinLinesCons(lines: seq<string>, tail: string)
    requires lines != []
    ensures JoinLines(lines) + tail == lines[0] + "\n" + (JoinLines(lines[1..]) + tail)
  {
  }

  lemma {:induction false} TokenizeJoin(lines: seq<string>, tail: string)
    requires forall i :: 0 <= i < |lines| ==> NoTerminator(lines[i])
    ensures Tokenize(JoinLines(lines) + tail) == ClassifyAll(lines) + Tokenize(tail)
  {
    if lines == [] {
      assert JoinLines(lines) + tail == tail;
    } else {
      var c := Classify(Segment(lines[0], true));
      var rest := JoinLines(lines[1..]) + tail;
      calc {
        Tokenize(JoinLines(lines) + tail);
        { JoinLinesCons(lines, tail); }
        Tokenize(lines[0] + "\n" + rest);
        { TokenizeLine(lines[0], rest); }
        [c] + Tokenize(rest);
        { TokenizeJoin(lines[1..], tail); }
        [c] + (ClassifyAll(lines[1..]) + Tokenize(tail));
        { ConcatAssoc([c], ClassifyAll(lines[1..]), Tokenize(tail)); }
        ([c] + ClassifyAll(lines[1..])) + Tokenize(tail);
        { ClassifyAllCons(lines); }
        ClassifyAll(lines) + Tokenize(tail);
      }
    }
  }

  lemma {:induction false} PayloadLine(tag: string, x: Payload)
    requires |tag| == 3 && NoTerminator(tag)
    ensures NoTerminator(tag + x)
    ensures (tag + x)[..3] == tag && (tag + x)[3..] == x
  {
    assert forall i :: 3 <= i < |tag + x| ==> (tag + x)[i] == x[i - 3];
  }

  lemma {:induction false} GroupLinesTyped(g: Group)
    ensures forall i :: 0 <= i < |GroupLines(g)| ==> NoTerminator(GroupLines(g)[i])
    ensures ClassifyAll(GroupLines(g)) == [ULine(g.uid), WLine(g.hash)] + TypedPLines(g.files)
  {
    var head := ["U: " + g.uid, "W: " + g.hash];
    assert ClassifyAll(head) == [ULine(g.uid), WLine(g.hash)] by {
      PayloadLine("U: ", g.uid);
      PayloadLine("W: ", g.hash);
    }
    assert ClassifyAll(PLines(g.files)) == TypedPLines(g.files) by {
      forall i | 0 <= i < |g.files|
        ensures Classify(Segment(PLines(g.files)[i], true)) == PLine(g.files[i])
      {
        PayloadLine("P: ", g.files[i]);
      }
    }
    assert forall i :: 0 <= i < |GroupLines(g)| ==> NoTerminator(GroupLines(g)[i]) by {
      PayloadLine("U: ", g.uid);
      PayloadLine("W: ", g.hash);
      forall i | 0 <= i < |g.files|
        ensures NoTerminator(PLines(g.files)[i])
      {
        PayloadLine("P: ", g.files[i]);
      }
    }
    ClassifyAllAppend(head, PLines(g.files));
  }

  lemma {:induction false} RenderLinesTyped(gs: seq<Group>)
    ensures forall i :: 0 <= i < |RenderLines(gs)| ==> NoTerminator(RenderLines(gs)[i])
    ensures ClassifyAll(RenderLines(gs)) == TypedLines(gs)
  {
    if gs != [] {
      var gl, rl := GroupLines(gs[0]), RenderLines(gs[1..]);
      RenderLinesTyped(gs[1..]);
      GroupLinesTyped(gs[0]);
      ClassifyAllAppend(gl, rl);
      assert forall i :: |gl| <= i < |gl| + |rl| ==> (gl + rl)[i] == rl[i - |gl|];
    }
  }

  lemma {:induction false} GroupAtHead(g: Group, rest: seq<Line>)
    requires rest == [] || !rest[0].PLine?
    ensures Groups([ULine(g.uid), WLine(g.hash)] + TypedPLines(g.files) + rest) == [g] + Groups(rest)
  {
    var ls := [ULine(g.uid), WLine(g.hash)] + TypedPLines(g.files) + rest;
    var k := 2 + |g.files|;
    assert ls[k..] == rest;
    assert forall j :: 2 <= j < k ==> ls[j] == PLine(g.files[j - 2]);
    assert k < |ls| ==> ls[k] == rest[0];
    GroupsAtMatch(ls, k);
    assert Files(ls[2..k]) == g.files;
  }

  lemma {:induction false} TypedLinesCons(gs: seq<Group>, tail: seq<Line>)
    requires gs != []
    ensures TypedLines(gs) + tail
         == [ULine(gs[0].uid), WLine(gs[0].hash)] + TypedPLines(gs[0].files) + (TypedLines(gs[1..]) + tail)
    ensures var rest := TypedLines(gs[1..]) + tail; rest == [] || rest == tail || !rest[0].PLine?
  {
    var g := gs[0];
    assert TypedLines(gs) == [ULine(g.uid), WLine(g.hash)] + TypedPLines(g.files) + TypedLines(gs[1..]);
    if gs[1..] != [] {
      var g1 := gs[1..][0];
      assert TypedLines(gs[1..]) == [ULine(g1.uid), WLine(g1.hash)] + TypedPLines(g1.files) + TypedLines(gs[1..][1..]);
      assert (TypedLines(gs[1..]) + tail)[0] == ULine(g1.uid);
    } else {
      assert TypedLines(gs[1..]) + tail == tail;
    }
  }

  lemma {:induction false} GroupsOfTyped(gs: seq<Group>, tail: seq<Line>)
    requires tail == [] || !tail[0].PLine?
    ensures Groups(TypedLines(gs) + tail) == gs + Groups(tail)
  {
    if gs == [] {
      assert TypedLines(gs) + tail == tail;
    } else {
      var rest := TypedLines(gs[1..]) + tail;
      TypedLinesCons(gs, tail);
      GroupAtHead(gs[0], rest);
      GroupsOfTyped(gs[1..], tail);
      ConcatAssoc([gs[0]], gs[1..], Groups(tail));
      assert [gs[0]] + gs[1..] == gs;
    }
  }

  /** Reading a rendered manifest gives back exactly the groups it was written from. */
  lemma {:induction false} ParseRendered(gs: seq<Group>)
    ensures Groups(Tokenize(Render(gs))) == gs
  {
    RenderLinesTyped(gs);
    TokenizeJoin(RenderLines(gs), "");
    assert Render(gs) + "" == Render(gs);
    GroupsOfTyped(gs, []);
  }

  /** A last P line without its newline is not part of any match. */
  lemma {:induction false} UnterminatedLastLine(gs: seq<Group>, x: Payload)
    ensures Groups(Tokenize(Render(gs) + ("P: " + x))) == gs
  {
    RenderLinesTyped(gs);
    TokenizeJoin(RenderLines(gs), "P: " + x);
    PayloadLine("P: ", x);
    assert TerminatorIndex("P: " + x) == |"P: " + x|;
    assert Tokenize("P: " + x) == [Other];
    GroupsOfTyped(gs, [Other]);
  }
}
