/** `parse_session` from the line list on: the segmentation pass, then the
    pairing pass, written as the script's two loops; and the rows the batch
    loop writes for one transcript file. */
module Parser {
  import opened Wrappers
  import opened Text
  import opened Transcript
  import opened Pairing
  import opened Naming

  /** The pairs `parse_session` returns for the given lines. */
  function ParseLines(lines: seq<string>): seq<Pair>
  {
    PairTurns(Segment(lines))
  }

  /** The two loops of `parse_session`: the first pass builds the turns,
      the second pairs them. The Patient column lists the texts of the
      turns not spoken by the Therapist, in order. */
  method ParseSession(lines: seq<string>) returns (pairs: seq<Pair>)
    ensures pairs == PairTurns(Segment(lines))
    ensures PatientColumn(pairs) == ReplyTexts(Segment(lines))
  {
    var conversation := SegmentLines(lines);
    SegmentIsGrouping(lines);
    pairs := PairConversation(conversation);
    PatientColumnIsReplies(conversation);
  }

  /** Lines 31-57, statement by statement: the result is the grouping of
      the lines into turns, each turn's text non-empty and stripped. */
  method SegmentLines(lines: seq<string>) returns (conversation: seq<Turn>)
    ensures conversation == TurnsOfGroups(Groups(lines))
    ensures forall k :: 0 <= k < |conversation| ==> IsClean(conversation[k].text)
  {
    conversation := [];
    var currentSpeaker := NoSpeaker;
    var buffer := "";
    var i := 0;
    ghost var kinds := Classified(lines);
    assert kinds[0..] == kinds;
    ghost var goal := ScanLines(Start, kinds);
    assert ScanLines(Scan(currentSpeaker, buffer, conversation), kinds[i..]) == goal;
    while i < |lines|
      invariant i <= |lines|
      invariant ScanLines(Scan(currentSpeaker, buffer, conversation), kinds[i..]) == goal
    {
      var line := lines[i];
      ghost var before := Scan(currentSpeaker, buffer, conversation);
      ScanStep(before, kinds, i);
      var kind := Classify(line);
      assert kind == kinds[i];
      if kind.TherapistLine? || kind.PatientLine? {
        if buffer != "" {
          conversation := Push(conversation, currentSpeaker, buffer);
        }
        assert conversation == FlushBuffer(before);
        currentSpeaker := if kind.TherapistLine? then Therapist else Patient;
        buffer := Trim(kind.group);
      } else {
        assert kind == Continuation(line);
        buffer := buffer + " " + Trim(line);
      }
      assert Scan(currentSpeaker, buffer, conversation) == ScanLine(before, kind);
      i := i + 1;
    }
    ScanDone(Scan(currentSpeaker, buffer, conversation), kinds, i);
    if buffer != "" {
      conversation := Push(conversation, currentSpeaker, buffer);
    }
    SegmentIsGrouping(lines);
    SegmentTurnsClean(lines);
  }

  /** Lines 60-71, statement by statement: one pair per turn not spoken by
      the Therapist, carrying the Therapist turn just before it if any. */
  method PairConversation(conversation: seq<Turn>) returns (pairs: seq<Pair>)
    ensures |pairs| == |Replies(conversation)|
    ensures forall k :: 0 <= k < |pairs| ==>
      pairs[k] == Pair(PromptFor(conversation, Replies(conversation)[k]), conversation[Replies(conversation)[k]].text)
    ensures pairs == PairTurns(conversation)
  {
    pairs := [];
    var lastTherapist := Unset;
    var j := 0;
    assert conversation[0..] == conversation;
    while j < |conversation|
      invariant j <= |conversation|
      invariant PairFold(Pairer(lastTherapist, pairs), conversation[j..]) == PairFold(Pairer(Unset, []), conversation)
    {
      var turn := conversation[j];
      ghost var before := Pairer(lastTherapist, pairs);
      PairStep(before, conversation, j);
      if turn.speaker == Therapist {
        lastTherapist := Pending(turn.text);
      } else if lastTherapist.Pending? && lastTherapist.text != "" {
        pairs := pairs + [Pair(lastTherapist.text, turn.text)];
        lastTherapist := Unset;
      } else {
        pairs := pairs + [Pair("", turn.text)];
      }
      assert Pairer(lastTherapist, pairs) == PairTurn(before, turn);
      j := j + 1;
    }
    assert conversation[j..] == [];
    PairTurnsByReplies(conversation);
  }

  lemma ScanStep(st: Scan, ks: seq<LineKind>, i: nat)
    requires i < |ks|
    ensures ScanLines(st, ks[i..]) == ScanLines(ScanLine(st, ks[i]), ks[i + 1..])
  {
    TailSlice(ks, i);
  }

  lemma ScanDone(st: Scan, ks: seq<LineKind>, i: nat)
    requires i == |ks|
    ensures ScanLines(st, ks[i..]) == st
  {
    assert ks[i..] == [];
  }

  lemma PairStep(st: Pairer, turns: seq<Turn>, j: nat)
    requires j < |turns|
    ensures PairFold(st, turns[j..]) == PairFold(PairTurn(st, turns[j]), turns[j + 1..])
  {
    TailSlice(turns, j);
  }

  /** Every pair's Patient text is non-empty and stripped, and its Therapist
      text is "" or non-empty and stripped. */
  lemma ParsedPairsClean(lines: seq<string>)
    ensures forall k :: 0 <= k < |ParseLines(lines)| ==>
      && IsClean(ParseLines(lines)[k].patient)
      && (ParseLines(lines)[k].therapist == "" || IsClean(ParseLines(lines)[k].therapist))
  {
    var turns := Segment(lines);
    SegmentTurnsClean(lines);
    PairTurnsByReplies(turns);
  }

  /** A transcript with no tag line gives one pair with an empty Therapist
      column holding all its text, or no pair at all when it is blank. */
  lemma ParseUntagged(lines: seq<string>)
    requires forall i :: 0 <= i < |lines| ==> !IsTagLine(lines[i])
    ensures (forall i :: 0 <= i < |lines| ==> AllSpace(lines[i])) ==> ParseLines(lines) == []
    ensures (exists i :: 0 <= i < |lines| && !AllSpace(lines[i])) ==>
      ParseLines(lines) == [Pair("", Trim(Joined(lines)))]
  {
    UntaggedTranscript(lines);
    if exists i :: 0 <= i < |lines| && !AllSpace(lines[i]) {
      PairOfOneReply(Turn(NoSpeaker, Trim(Joined(lines))));
    }
  }

  lemma PairOfOneReply(t: Turn)
    requires IsReply(t)
    ensures PairTurns([t]) == [Pair("", t.text)]
  {
    assert [t][1..] == [];
    assert PairFold(Pairer(Unset, []), [t]) == PairFold(Pairer(Unset, [Pair("", t.text)]), []);
  }

  /** The table written for one directory entry of a patient folder: `None`
      for entries the filter skips, otherwise the output file name and one
      row per pair, each carrying the folder's patient name and the file's
      session number. */
  datatype Row = Row(patientName: string, sessionNumber: string, therapist: string, patient: string)

  function SessionTable(folder: string, name: string, lines: seq<string>): (r: Option<(string, seq<Row>)>)
    ensures r.Some? <==> IsSessionFile(name)
    ensures r.Some? ==> r.value.0 == OutputName(name)
    ensures r.Some? ==> |r.value.1| == |ParseLines(lines)| == |ReplyTexts(Segment(lines))|
    ensures r.Some? ==> forall k :: 0 <= k < |r.value.1| ==>
      && r.value.1[k].patientName == PatientName(folder)
      && SessionNumber(name) == Some(r.value.1[k].sessionNumber)
      && Lacks(r.value.1[k].sessionNumber, '_')
      && r.value.1[k].therapist == ParseLines(lines)[k].therapist
      && r.value.1[k].patient == ReplyTexts(Segment(lines))[k]
  {
    if !IsSessionFile(name) then None
    else
      assert name[..|SessionPrefix|] == SessionPrefix;
      assert name[|SessionPrefix| - 1] == '_';
      var session := SessionNumber(name).value;
      var pairs := ParseLines(lines);
      PatientColumnIsReplies(Segment(lines));
      assert forall k :: 0 <= k < |pairs| ==> pairs[k].patient == PatientColumn(pairs)[k];
      Some((OutputName(name), seq(|pairs|, k requires 0 <= k < |pairs| =>
        Row(PatientName(folder), session, pairs[k].therapist, pairs[k].patient))))
  }
}
