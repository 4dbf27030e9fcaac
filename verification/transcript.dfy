/** The first pass of `parse_session`: every line is classified as a
    Therapist tag line, a Patient tag line or a continuation line, and a fold
    over the lines cuts the transcript into speaker turns. */
module Transcript {
  import opened Text

  /** The script's `current_speaker`: `None` until the first tag line. */
  datatype Speaker = NoSpeaker | Therapist | Patient

  /** One entry of `conversation`: a role and its stripped text. */
  datatype Turn = Turn(speaker: Speaker, text: string)

  /** What the two speaker regexes say about one line; a tag line carries
      the regex's capture group, any other line is kept whole. */
  datatype LineKind = TherapistLine(group: string) | PatientLine(group: string) | Continuation(text: string)

  const TherapistTag: string := "Therapist:"
  const PatientTag: string := "Patient:"

  /** What the regex `.*` captures: everything before the first line feed. */
  function UpToNewline(s: string): (r: string)
    ensures |r| <= |s| && r == s[..|r|]
    ensures Lacks(r, '\n')
    ensures |r| < |s| ==> s[|r|] == '\n'
  {
    s[..IndexOf(s, '\n')]
  }

  /** The capture group of `^Tag:\s*(.*)` on a line that starts with the
      tag: `\s*` takes all the whitespace after the colon, `(.*)` the rest of
      the line up to a line feed. */
  function TagGroup(line: string, tag: string): string
    requires |tag| <= |line|
  {
    UpToNewline(TrimStart(line[|tag|..]))
  }

  /** The regexes at lines 15-16, tried Therapist first. `re.match` anchors
      at the start of the line and `re.IGNORECASE` folds letter case. */
  function Classify(line: string): LineKind
  {
    if StartsWithIgnoringCase(line, TherapistTag) then TherapistLine(TagGroup(line, TherapistTag))
    else if StartsWithIgnoringCase(line, PatientTag) then PatientLine(TagGroup(line, PatientTag))
    else Continuation(line)
  }

  predicate IsTagLine(line: string) {
    !Classify(line).Continuation?
  }

  /** Every line classified, in order. */
  function Classified(lines: seq<string>): (ks: seq<LineKind>)
    ensures |ks| == |lines|
    ensures forall i :: 0 <= i < |lines| ==> ks[i] == Classify(lines[i])
  {
    seq(|lines|, i requires 0 <= i < |lines| => Classify(lines[i]))
  }

  /** The speaker a tag line switches to. */
  function TagSpeaker(k: LineKind): Speaker
    requires !k.Continuation?
  {
    if k.TherapistLine? then Therapist else Patient
  }

  /** A line is a Therapist line exactly when it starts with "therapist:"
      in any ASCII letter case, and a Patient line exactly when it starts
      with "patient:" and not with "therapist:". */
  lemma ClassifyTags(line: string)
    ensures Classify(line).TherapistLine? <==> StartsWithIgnoringCase(line, "therapist:")
    ensures Classify(line).PatientLine? <==>
      !StartsWithIgnoringCase(line, "therapist:") && StartsWithIgnoringCase(line, "patient:")
    ensures Classify(line).Continuation? <==>
      !StartsWithIgnoringCase(line, "therapist:") && !StartsWithIgnoringCase(line, "patient:")
  {
    FoldedTags(line);
  }

  lemma FoldedTags(line: string)
    ensures StartsWithIgnoringCase(line, TherapistTag) <==> StartsWithIgnoringCase(line, "therapist:")
    ensures StartsWithIgnoringCase(line, PatientTag) <==> StartsWithIgnoringCase(line, "patient:")
  {
    assert AsciiLower('T') == 't' && AsciiLower('P') == 'p';
    assert forall i :: 1 <= i < |TherapistTag| ==> TherapistTag[i] == "therapist:"[i];
    assert forall i :: 1 <= i < |PatientTag| ==> PatientTag[i] == "patient:"[i];
  }

  /** The two tags cannot both match, so the Therapist-first order never
      decides anything. */
  lemma TagsExclusive(line: string)
    ensures !(StartsWithIgnoringCase(line, TherapistTag) && StartsWithIgnoringCase(line, PatientTag))
  {
    assert AsciiLower(TherapistTag[0]) == 't' && AsciiLower(PatientTag[0]) == 'p';
  }

  /** The tag must be the very first thing on the line: a line that begins
      with whitespace is a continuation line. */
  lemma LeadingSpaceIsContinuation(line: string)
    requires line != [] && IsSpace(line[0])
    ensures Classify(line).Continuation?
  {
    SpaceIsNotLetter(line[0]);
    assert AsciiLower(TherapistTag[0]) == 't' && AsciiLower(PatientTag[0]) == 'p';
  }

  /** Classification looks at letters without regard to ASCII case: two
      lines that agree up to case are classified alike. */
  lemma ClassifyIgnoresCase(a: string, b: string)
    requires |a| == |b|
    requires forall i :: 0 <= i < |a| ==> AsciiLower(a[i]) == AsciiLower(b[i])
    ensures Classify(a).TherapistLine? == Classify(b).TherapistLine?
    ensures Classify(a).PatientLine? == Classify(b).PatientLine?
    ensures Classify(a).Continuation? == Classify(b).Continuation?
  {
    FoldedPrefixesAgree(a, b, |TherapistTag|);
    FoldedPrefixesAgree(a, b, |PatientTag|);
  }

  lemma FoldedPrefixesAgree(a: string, b: string, n: nat)
    requires |a| == |b|
    requires forall i :: 0 <= i < |a| ==> AsciiLower(a[i]) == AsciiLower(b[i])
    ensures n <= |a| ==> LowerAscii(a[..n]) == LowerAscii(b[..n])
  {
    if n <= |a| {
      assert forall i :: 0 <= i < n ==> LowerAscii(a[..n])[i] == LowerAscii(b[..n])[i];
    }
  }

  /** A tag line resets the buffer to the stripped remainder after the
      colon, for every line the script can see (split lines hold no line
      feed). */
  lemma TagRemainder(line: string)
    requires Lacks(line, '\n')
    ensures Classify(line).TherapistLine? ==> Trim(Classify(line).group) == Trim(line[|TherapistTag|..])
    ensures Classify(line).PatientLine? ==> Trim(Classify(line).group) == Trim(line[|PatientTag|..])
  {
    if Classify(line).TherapistLine? {
      TagGroupTrim(line, TherapistTag);
    } else if Classify(line).PatientLine? {
      TagGroupTrim(line, PatientTag);
    }
  }

  lemma TagGroupTrim(line: string, tag: string)
    requires |tag| <= |line| && Lacks(line, '\n')
    ensures Trim(TagGroup(line, tag)) == Trim(line[|tag|..])
  {
    var rest := line[|tag|..];
    var t := TrimStart(rest);
    var k := LeadingSpace(rest);
    forall j | 0 <= j < |t|
      ensures t[j] != '\n'
    {
      assert t[j] == line[|tag| + k + j];
    }
    assert IndexOf(t, '\n') == |t|;
    assert t[..|t|] == t;
    TrimAfterTrimStart(rest);
  }

  // ---------------------------------------------------------------------
  // The segmentation fold (lines 27-57)
  // ---------------------------------------------------------------------

  /** The loop state: `current_speaker`, `buffer` and `conversation`. */
  datatype Scan = Scan(speaker: Speaker, buffer: string, turns: seq<Turn>)

  const Start: Scan := Scan(NoSpeaker, "", [])

  /** The nested `push`: append the stripped text, unless it is blank. */
  function Push(turns: seq<Turn>, role: Speaker, text: string): seq<Turn>
  {
    if Trim(text) != "" then turns + [Turn(role, Trim(text))] else turns
  }

  /** `if buffer: push(current_speaker, buffer)`. */
  function FlushBuffer(st: Scan): seq<Turn>
  {
    if st.buffer != "" then Push(st.turns, st.speaker, st.buffer) else st.turns
  }

  /** One iteration of the loop at lines 36-53, on a classified line. */
  function ScanLine(st: Scan, k: LineKind): Scan
  {
    match k
    case TherapistLine(g) => Scan(Therapist, Trim(g), FlushBuffer(st))
    case PatientLine(g) => Scan(Patient, Trim(g), FlushBuffer(st))
    case Continuation(line) => st.(buffer := st.buffer + " " + Trim(line))
  }

  /** The loop over all lines, from state `st`. */
  function ScanLines(st: Scan, ks: seq<LineKind>): Scan
    decreases |ks|
  {
    if ks == [] then st else ScanLines(ScanLine(st, ks[0]), ks[1..])
  }

  /** The whole first pass: the loop and then the final flush at line 56. */
  function Segment(lines: seq<string>): seq<Turn>
  {
    FlushBuffer(ScanLines(Start, Classified(lines)))
  }

  /** A turn text as `push` leaves it: non-empty and already stripped. */
  predicate IsClean(text: string) {
    text != "" && Trim(text) == text
  }

  predicate AllClean(turns: seq<Turn>) {
    forall i :: 0 <= i < |turns| ==> IsClean(turns[i].text)
  }

  lemma PushKeepsClean(turns: seq<Turn>, role: Speaker, text: string)
    requires AllClean(turns)
    ensures AllClean(Push(turns, role, text))
  {
    if Trim(text) != "" {
      TrimIdempotent(text);
      var r := turns + [Turn(role, Trim(text))];
      assert forall i :: 0 <= i < |turns| ==> r[i] == turns[i];
    }
  }

  lemma {:induction false} ScanKeepsClean(st: Scan, ks: seq<LineKind>)
    requires AllClean(st.turns)
    ensures AllClean(ScanLines(st, ks).turns)
    decreases |ks|
  {
    if ks != [] {
      PushKeepsClean(st.turns, st.speaker, st.buffer);
      ScanKeepsClean(ScanLine(st, ks[0]), ks[1..]);
    }
  }

  /** Every turn the first pass emits has non-empty text equal to its own
      strip; blank buffers are dropped rather than emitted. */
  lemma SegmentTurnsClean(lines: seq<string>)
    ensures forall i :: 0 <= i < |Segment(lines)| ==>
      Segment(lines)[i].text != "" && Trim(Segment(lines)[i].text) == Segment(lines)[i].text
  {
    var st := ScanLines(Start, Classified(lines));
    ScanKeepsClean(Start, Classified(lines));
    PushKeepsClean(st.turns, st.speaker, st.buffer);
  }

  // ---------------------------------------------------------------------
  // An independent description of the first pass: cut the lines into
  // groups (an untagged preamble, then one group per tag line with the
  // continuation lines after it) and emit one turn per non-blank group.
  // ---------------------------------------------------------------------

  /** How many lines at the front are continuation lines. */
  function LeadingContinuations(ks: seq<LineKind>): (n: nat)
    ensures n <= |ks|
    ensures forall i :: 0 <= i < n ==> ks[i].Continuation?
    ensures n < |ks| ==> !ks[n].Continuation?
  {
    if ks == [] || !ks[0].Continuation? then 0 else 1 + LeadingContinuations(ks[1..])
  }

  /** The lines behind a run of continuation lines. */
  function Texts(ks: seq<LineKind>): (lines: seq<string>)
    requires forall i :: 0 <= i < |ks| ==> ks[i].Continuation?
    ensures |lines| == |ks|
  {
    seq(|ks|, i requires 0 <= i < |ks| => ks[i].text)
  }

  /** What a run of continuation lines adds to a buffer: each line,
      stripped, after one space. A blank line still adds its space. */
  function Joined(conts: seq<string>): string
  {
    if conts == [] then "" else " " + Trim(conts[0]) + Joined(conts[1..])
  }

  /** A speaker, the stripped text of its tag line, and the continuation
      lines that follow it. */
  datatype Group = Group(speaker: Speaker, head: string, body: seq<string>)

  /** The group a tag line opens, with the first `n` lines of `rest`, all
      continuation lines, as its body. */
  function OpenGroup(tag: LineKind, rest: seq<LineKind>, n: nat): Group
    requires !tag.Continuation?
    requires n <= |rest| && forall i :: 0 <= i < n ==> rest[i].Continuation?
  {
    assert forall i :: 0 <= i < n ==> rest[..n][i] == rest[i];
    Group(TagSpeaker(tag), Trim(tag.group), Texts(rest[..n]))
  }

  /** The groups of lines that start with a tag line (or are empty). */
  function TaggedGroups(ks: seq<LineKind>): seq<Group>
    requires ks == [] || !ks[0].Continuation?
    decreases |ks|
  {
    if ks == [] then []
    else
      var n := LeadingContinuations(ks[1..]);
      [OpenGroup(ks[0], ks[1..], n)] + TaggedGroups(ks[1..][n..])
  }

  /** The preamble group (speaker unknown, possibly no lines), then the
      tagged groups. */
  function GroupsOf(ks: seq<LineKind>): seq<Group>
  {
    var n := LeadingContinuations(ks);
    [Preamble(ks, n)] + TaggedGroups(ks[n..])
  }

  /** The group of the first `n` lines, all continuation lines. */
  function Preamble(ks: seq<LineKind>, n: nat): Group
    requires n <= |ks| && forall i :: 0 <= i < n ==> ks[i].Continuation?
  {
    assert forall i :: 0 <= i < n ==> ks[..n][i] == ks[i];
    Group(NoSpeaker, "", Texts(ks[..n]))
  }

  function Groups(lines: seq<string>): seq<Group>
  {
    GroupsOf(Classified(lines))
  }

  /** The turn a group contributes: none when its text is blank. */
  function GroupTurns(g: Group): seq<Turn>
  {
    var text := g.head + Joined(g.body);
    if AllSpace(text) then [] else [Turn(g.speaker, Trim(text))]
  }

  function TurnsOfGroups(gs: seq<Group>): seq<Turn>
  {
    if gs == [] then [] else GroupTurns(gs[0]) + TurnsOfGroups(gs[1..])
  }

  /** `FlushBuffer` emits exactly the turn of the group it closes. */
  lemma FlushIsGroupTurn(st: Scan)
    ensures FlushBuffer(st) == st.turns + GroupTurns(Group(st.speaker, st.buffer, []))
  {
    assert st.buffer + Joined([]) == st.buffer;
    if st.buffer == "" {
      assert AllSpace(st.buffer);
      assert st.turns + [] == st.turns;
    }
  }

  /** A run of continuation lines only appends to the buffer. */
  lemma ScanContinuations(st: Scan, ks: seq<LineKind>, n: nat)
    requires n <= |ks|
    requires forall i :: 0 <= i < n ==> ks[i].Continuation?
    ensures forall i :: 0 <= i < n ==> ks[..n][i] == ks[i]
    ensures ScanLines(st, ks) == ScanLines(st.(buffer := st.buffer + Joined(Texts(ks[..n]))), ks[n..])
  {
    assert forall i :: 0 <= i < n ==> ks[..n][i] == ks[i];
    assert ks == ks[..n] + ks[n..];
    ScanRun(st, ks[..n], ks[n..]);
  }

  lemma {:induction false} ScanRun(st: Scan, run: seq<LineKind>, rest: seq<LineKind>)
    requires forall i :: 0 <= i < |run| ==> run[i].Continuation?
    ensures ScanLines(st, run + rest) == ScanLines(st.(buffer := st.buffer + Joined(Texts(run))), rest)
    decreases |run|
  {
    if run == [] {
      assert Texts(run) == [];
      assert st.buffer + Joined([]) == st.buffer;
      assert run + rest == rest;
    } else {
      var tail := run[1..];
      var st' := st.(buffer := st.buffer + " " + Trim(run[0].text));
      assert (run + rest)[1..] == tail + rest;
      assert ScanLines(st, run + rest) == ScanLines(st', tail + rest);
      ScanRun(st', tail, rest);
      RunBuffer(st.buffer, run);
    }
  }

  lemma RunBuffer(b: string, run: seq<LineKind>)
    requires run != [] && forall i :: 0 <= i < |run| ==> run[i].Continuation?
    ensures b + " " + Trim(run[0].text) + Joined(Texts(run[1..])) == b + Joined(Texts(run))
  {
    var j := Joined(Texts(run[1..]));
    assert Texts(run)[1..] == Texts(run[1..]);
    assert Joined(Texts(run)) == " " + Trim(run[0].text) + j;
    ConcatAssoc(b, " ", Trim(run[0].text));
    ConcatAssoc(b, " " + Trim(run[0].text), j);
  }

  /** A tag line and the continuation lines after it: the buffer ends up
      holding the group's text, and the previous buffer has been flushed. */
  lemma ScanGroup(st: Scan, ks: seq<LineKind>)
    requires ks != [] && !ks[0].Continuation?
    ensures var g := TaggedGroups(ks)[0];
      ScanLines(st, ks)
      == ScanLines(Scan(g.speaker, g.head + Joined(g.body), FlushBuffer(st)), ks[1..][LeadingContinuations(ks[1..])..])
  {
    var rest := ks[1..];
    var n := LeadingContinuations(rest);
    var g := OpenGroup(ks[0], rest, n);
    var st1 := Scan(g.speaker, g.head, FlushBuffer(st));
    assert ScanLine(st, ks[0]) == st1;
    ScanContinuations(st1, rest, n);
  }

  /** What is left after the first tagged group. */
  lemma TaggedGroupsCons(ks: seq<LineKind>)
    requires ks != [] && !ks[0].Continuation?
    ensures TurnsOfGroups(TaggedGroups(ks))
         == GroupTurns(TaggedGroups(ks)[0]) + TurnsOfGroups(TaggedGroups(ks[1..][LeadingContinuations(ks[1..])..]))
  {
    var rest := ks[1..];
    var n := LeadingContinuations(rest);
    TurnsOfGroupsCons(OpenGroup(ks[0], rest, n), TaggedGroups(rest[n..]));
  }

  lemma TurnsOfGroupsCons(g: Group, gs: seq<Group>)
    ensures TurnsOfGroups([g] + gs) == GroupTurns(g) + TurnsOfGroups(gs)
  {
    assert ([g] + gs)[1..] == gs;
  }

  lemma {:induction false} ScanTagged(st: Scan, ks: seq<LineKind>)
    requires ks == [] || !ks[0].Continuation?
    ensures FlushBuffer(ScanLines(st, ks))
         == st.turns + GroupTurns(Group(st.speaker, st.buffer, [])) + TurnsOfGroups(TaggedGroups(ks))
    decreases |ks|
  {
    FlushIsGroupTurn(st);
    var e := GroupTurns(Group(st.speaker, st.buffer, []));
    if ks == [] {
      assert st.turns + e + [] == st.turns + e;
    } else {
      var rest := ks[1..];
      var n := LeadingContinuations(rest);
      var g := TaggedGroups(ks)[0];
      var st2 := Scan(g.speaker, g.head + Joined(g.body), st.turns + e);
      ScanGroup(st, ks);
      ScanTagged(st2, rest[n..]);
      var r := TurnsOfGroups(TaggedGroups(rest[n..]));
      FlushedGroup(g);
      TaggedGroupsCons(ks);
      ConcatAssoc(st.turns + e, GroupTurns(g), r);
    }
  }

  /** The segmentation fold emits exactly the turns of the groups, in
      order: one per non-blank group, with its stripped text. */
  lemma SegmentIsGrouping(lines: seq<string>)
    ensures Segment(lines) == TurnsOfGroups(Groups(lines))
  {
    var ks := Classified(lines);
    var n := LeadingContinuations(ks);
    var g := Preamble(ks, n);
    var st := Scan(g.speaker, g.head + Joined(g.body), []);
    var r := TurnsOfGroups(TaggedGroups(ks[n..]));
    ScanPreamble(ks);
    assert ScanLines(Start, ks) == ScanLines(st, ks[n..]);
    ScanTagged(st, ks[n..]);
    FlushedGroup(g);
    EmptyConcat(GroupTurns(g), r);
    TurnsOfGroupsCons(g, TaggedGroups(ks[n..]));
  }

  lemma EmptyConcat<T>(a: seq<T>, b: seq<T>)
    ensures [] + a + b == a + b
  {
  }

  /** Closing a group's text as a buffer gives the group's turn. */
  lemma FlushedGroup(g: Group)
    ensures GroupTurns(Group(g.speaker, g.head + Joined(g.body), [])) == GroupTurns(g)
  {
    assert g.head + Joined(g.body) + Joined([]) == g.head + Joined(g.body);
  }

  /** The preamble only fills the buffer. */
  lemma ScanPreamble(ks: seq<LineKind>)
    ensures var g := Preamble(ks, LeadingContinuations(ks));
      ScanLines(Start, ks) == ScanLines(Scan(g.speaker, g.head + Joined(g.body), []), ks[LeadingContinuations(ks)..])
  {
    var n := LeadingContinuations(ks);
    var g := Preamble(ks, n);
    ScanContinuations(Start, ks, n);
    assert Start.buffer + Joined(g.body) == g.head + Joined(g.body);
  }

  /** Only the first turn can have no speaker: every turn after it comes
      from a tag line. */
  lemma OnlyFirstTurnUnspoken(lines: seq<string>)
    ensures forall i :: 0 < i < |Segment(lines)| ==> Segment(lines)[i].speaker != NoSpeaker
  {
    var ks := Classified(lines);
    var n := LeadingContinuations(ks);
    var head := GroupTurns(Preamble(ks, n));
    var tail := TurnsOfGroups(TaggedGroups(ks[n..]));
    SegmentIsGrouping(lines);
    TurnsOfGroupsCons(Preamble(ks, n), TaggedGroups(ks[n..]));
    TaggedGroupsSpoken(ks[n..]);
    TurnsSpoken(TaggedGroups(ks[n..]));
    assert Segment(lines) == head + tail;
    assert |head| <= 1;
  }

  lemma {:induction false} TaggedGroupsSpoken(ks: seq<LineKind>)
    requires ks == [] || !ks[0].Continuation?
    ensures forall i :: 0 <= i < |TaggedGroups(ks)| ==> TaggedGroups(ks)[i].speaker != NoSpeaker
    decreases |ks|
  {
    if ks != [] {
      var rest := ks[1..];
      var n := LeadingContinuations(rest);
      TaggedGroupsSpoken(rest[n..]);
      assert TaggedGroups(ks) == [OpenGroup(ks[0], rest, n)] + TaggedGroups(rest[n..]);
    }
  }

  lemma {:induction false} TurnsSpoken(gs: seq<Group>)
    requires forall i :: 0 <= i < |gs| ==> gs[i].speaker != NoSpeaker
    ensures forall i :: 0 <= i < |TurnsOfGroups(gs)| ==> TurnsOfGroups(gs)[i].speaker != NoSpeaker
    decreases |gs|
  {
    if gs != [] {
      TurnsSpoken(gs[1..]);
      assert TurnsOfGroups(gs) == GroupTurns(gs[0]) + TurnsOfGroups(gs[1..]);
    }
  }

  /** `Joined` is blank exactly when every line it joins is blank. */
  lemma {:induction false} JoinedBlank(conts: seq<string>)
    ensures AllSpace(Joined(conts)) <==> forall i :: 0 <= i < |conts| ==> AllSpace(conts[i])
    decreases |conts|
  {
    if conts != [] {
      JoinedBlank(conts[1..]);
      var t := Trim(conts[0]);
      var rest := Joined(conts[1..]);
      assert Joined(conts) == " " + t + rest;
      AllSpaceConcat(" " + t, rest);
      AllSpaceConcat(" ", t);
      assert AllSpace(" ");
      TrimBlank(conts[0]);
      assert (forall i :: 0 <= i < |conts| ==> AllSpace(conts[i]))
         <==> AllSpace(conts[0]) && forall i :: 0 <= i < |conts[1..]| ==> AllSpace(conts[1..][i]) by {
        assert forall i :: 0 <= i < |conts[1..]| ==> conts[1..][i] == conts[i + 1];
        assert forall i :: 1 <= i < |conts| ==> conts[i] == conts[1..][i - 1];
      }
    }
  }

  /** Untagged text before the first tag line is emitted with no speaker;
      a transcript with no tag at all yields one such turn holding all its
      text, or nothing if it is blank. */
  lemma UntaggedTranscript(lines: seq<string>)
    requires forall i :: 0 <= i < |lines| ==> !IsTagLine(lines[i])
    ensures (forall i :: 0 <= i < |lines| ==> AllSpace(lines[i])) ==> Segment(lines) == []
    ensures (exists i :: 0 <= i < |lines| && !AllSpace(lines[i])) ==>
      Segment(lines) == [Turn(NoSpeaker, Trim(Joined(lines)))]
  {
    SegmentIsGrouping(lines);
    var g := Group(NoSpeaker, "", lines);
    UntaggedGroups(lines);
    assert TurnsOfGroups([g]) == GroupTurns(g);
    assert "" + Joined(lines) == Joined(lines);
    JoinedBlank(lines);
  }

  lemma UntaggedGroups(lines: seq<string>)
    requires forall i :: 0 <= i < |lines| ==> !IsTagLine(lines[i])
    ensures Groups(lines) == [Group(NoSpeaker, "", lines)]
  {
    var ks := Classified(lines);
    AllContinuations(ks);
    assert ks[..|ks|] == ks;
    assert ks[|ks|..] == [];
    assert Texts(ks) == lines;
  }

  lemma {:induction false} AllContinuations(ks: seq<LineKind>)
    requires forall i :: 0 <= i < |ks| ==> ks[i].Continuation?
    ensures LeadingContinuations(ks) == |ks|
    decreases |ks|
  {
    if ks != [] {
      assert forall i :: 0 <= i < |ks[1..]| ==> ks[1..][i] == ks[i + 1];
      AllContinuations(ks[1..]);
    }
  }

  /** A tag line whose remainder is `head`, followed by one non-blank
      continuation line, is a single turn: the two texts joined by exactly
      one space. */
  lemma InlineContinuation(tagLine: string, cont: string)
    requires IsTagLine(tagLine) && !IsTagLine(cont)
    requires !AllSpace(Classify(tagLine).group) && !AllSpace(cont)
    ensures Segment([tagLine, cont])
         == [Turn(TagSpeaker(Classify(tagLine)), Trim(Classify(tagLine).group) + " " + Trim(cont))]
  {
    var kind := Classify(tagLine);
    var g0 := Group(NoSpeaker, "", []);
    var g := Group(TagSpeaker(kind), Trim(kind.group), [cont]);
    var t := Turn(TagSpeaker(kind), Trim(kind.group) + " " + Trim(cont));
    SegmentIsGrouping([tagLine, cont]);
    assert Classify(cont) == Continuation(cont);
    assert Classified([tagLine, cont]) == [kind, Continuation(cont)];
    GroupsOfTagAndContinuation(kind, Continuation(cont));
    assert Groups([tagLine, cont]) == [g0, g];
    TurnsOfTwoGroups(g0, g);
    assert GroupTurns(g0) == [] by {
      assert "" + Joined([]) == "";
    }
    TrimBlank(kind.group);
    JoinedTurn(TagSpeaker(kind), Trim(kind.group), cont);
    assert TurnsOfGroups([g0, g]) == [] + [t];
  }

  lemma GroupsOfTagAndContinuation(tag: LineKind, cont: LineKind)
    requires !tag.Continuation? && cont.Continuation?
    ensures GroupsOf([tag, cont])
         == [Group(NoSpeaker, "", []), Group(TagSpeaker(tag), Trim(tag.group), [cont.text])]
  {
    var ks := [tag, cont];
    assert LeadingContinuations(ks) == 0;
    assert LeadingContinuations([cont]) == 1;
    TwoSlices(tag, cont);
    var g := Group(TagSpeaker(tag), Trim(tag.group), [cont.text]);
    assert [cont][..1] == [cont] && [cont][1..] == [];
    assert Texts([cont]) == [cont.text];
    assert OpenGroup(tag, [cont], 1) == g;
    assert TaggedGroups(ks) == [g] + TaggedGroups([]);
    assert Texts(ks[..0]) == [];
    assert Preamble(ks, 0) == Group(NoSpeaker, "", []);
  }

  /** The group of a non-blank head and one non-blank continuation line. */
  lemma JoinedTurn(speaker: Speaker, head: string, cont: string)
    requires head != [] && IsTrimmed(head) && !AllSpace(cont)
    ensures GroupTurns(Group(speaker, head, [cont])) == [Turn(speaker, head + " " + Trim(cont))]
  {
    var tail := Trim(cont);
    JoinedOne(cont);
    ConcatAssoc(head, " ", tail);
    TrimSpaceJoin(head, tail);
    assert !AllSpace(head + " " + tail) by {
      assert head[0] == (head + " " + tail)[0];
    }
  }

  lemma TwoSlices<T>(a: T, b: T)
    ensures [a, b][..0] == [] && [a, b][0..] == [a, b]
    ensures [a, b][1..] == [b] && [a, b][1..2] == [b] && [a, b][2..] == []
  {
  }

  lemma JoinedOne(line: string)
    ensures Joined([line]) == " " + Trim(line)
  {
    assert [line][1..] == [];
    assert " " + Trim(line) + "" == " " + Trim(line);
  }

  lemma TurnsOfTwoGroups(a: Group, b: Group)
    ensures TurnsOfGroups([a, b]) == GroupTurns(a) + GroupTurns(b)
  {
    assert [a, b][1..] == [b];
    assert [b][1..] == [];
    assert TurnsOfGroups([b]) == GroupTurns(b) + TurnsOfGroups([]);
    assert GroupTurns(b) + [] == GroupTurns(b);
  }
}
