/** The second pass of `parse_session`: a fold over the turns that keeps only
    the most recent Therapist text and attaches it to the next turn that is
    not a Therapist turn. */
module Pairing {
  import opened Text
  import opened Transcript

  /** One output row before the metadata columns: `[Therapist, Patient]`. */
  datatype Pair = Pair(therapist: string, patient: string)

  /** The script's `last_therapist`: `None`, or the text of a Therapist turn
      not yet used. */
  datatype Pending = Unset | Pending(text: string)

  /** The loop state: `last_therapist` and `pairs`. */
  datatype Pairer = Pairer(last: Pending, pairs: seq<Pair>)

  /** A turn that produces a pair: anything not spoken by the Therapist,
      including untagged preamble text. */
  predicate IsReply(t: Turn) {
    t.speaker != Therapist
  }

  /** One iteration of the loop at lines 63-71. `if last_therapist:` is
      false both for `None` and for an empty string. */
  function PairTurn(st: Pairer, t: Turn): Pairer
  {
    if t.speaker == Therapist then st.(last := Pending(t.text))
    else if st.last.Pending? && st.last.text != "" then Pairer(Unset, st.pairs + [Pair(st.last.text, t.text)])
    else st.(pairs := st.pairs + [Pair("", t.text)])
  }

  function PairFold(st: Pairer, turns: seq<Turn>): Pairer
    decreases |turns|
  {
    if turns == [] then st else PairFold(PairTurn(st, turns[0]), turns[1..])
  }

  /** The whole second pass. */
  function PairTurns(turns: seq<Turn>): seq<Pair>
  {
    PairFold(Pairer(Unset, []), turns).pairs
  }

  // ---------------------------------------------------------------------
  // An independent description: one pair per reply turn, in order; its
  // Therapist column is the text of the turn just before it when that is
  // a Therapist turn, and "" otherwise.
  // ---------------------------------------------------------------------

  /** The positions of the reply turns at or after `from`, in increasing
      order. */
  function RepliesFrom(turns: seq<Turn>, from: nat): (idx: seq<nat>)
    requires from <= |turns|
    ensures forall k :: 0 <= k < |idx| ==> from <= idx[k] < |turns| && IsReply(turns[idx[k]])
    ensures forall k, l :: 0 <= k < l < |idx| ==> idx[k] < idx[l]
    ensures forall j :: from <= j < |turns| && IsReply(turns[j]) ==> j in idx
    decreases |turns| - from
  {
    if from == |turns| then []
    else if IsReply(turns[from]) then [from] + RepliesFrom(turns, from + 1)
    else RepliesFrom(turns, from + 1)
  }

  function Replies(turns: seq<Turn>): seq<nat>
  {
    RepliesFrom(turns, 0)
  }

  /** The Therapist text a reply at position `j` is paired with. */
  function PromptFor(turns: seq<Turn>, j: nat): string
    requires j < |turns|
  {
    if j > 0 && turns[j - 1].speaker == Therapist then turns[j - 1].text else ""
  }

  /** What the pending Therapist text amounts to: `if last_therapist` takes
      `None` and "" alike. */
  function Prompt(p: Pending): string
  {
    if p.Pending? then p.text else ""
  }

  /** The pair the reply at position `j` should produce. */
  function PairAt(turns: seq<Turn>, j: nat): Pair
    requires j < |turns|
  {
    Pair(PromptFor(turns, j), turns[j].text)
  }

  /** The pairs of the replies at positions `idx`, in the order given. */
  function PairsAt(turns: seq<Turn>, idx: seq<nat>): (ps: seq<Pair>)
    requires forall k :: 0 <= k < |idx| ==> idx[k] < |turns|
  {
    seq(|idx|, k requires 0 <= k < |idx| => PairAt(turns, idx[k]))
  }

  lemma PairsAtCons(turns: seq<Turn>, j: nat, idx: seq<nat>)
    requires j < |turns|
    requires forall k :: 0 <= k < |idx| ==> idx[k] < |turns|
    ensures PairsAt(turns, [j] + idx) == [PairAt(turns, j)] + PairsAt(turns, idx)
  {
  }

  /** One step of the fold: a Therapist turn only sets the pending text; a
      reply appends one pair carrying the pending text and clears it. */
  lemma PairTurnStep(st: Pairer, t: Turn)
    ensures PairTurn(st, t).pairs == st.pairs + (if IsReply(t) then [Pair(Prompt(st.last), t.text)] else [])
    ensures Prompt(PairTurn(st, t).last) == if t.speaker == Therapist then t.text else ""
  {
  }

  lemma {:induction false} PairFoldFrom(turns: seq<Turn>, from: nat, st: Pairer)
    requires from <= |turns|
    requires Prompt(st.last) == if from > 0 && turns[from - 1].speaker == Therapist then turns[from - 1].text else ""
    ensures PairFold(st, turns[from..]).pairs == st.pairs + PairsAt(turns, RepliesFrom(turns, from))
    decreases |turns| - from
  {
    if from < |turns| {
      var t := turns[from];
      var st' := PairTurn(st, t);
      TailSlice(turns, from);
      assert PairFold(st, turns[from..]) == PairFold(st', turns[from + 1..]);
      PairTurnStep(st, t);
      PairFoldFrom(turns, from + 1, st');
      var rest := PairsAt(turns, RepliesFrom(turns, from + 1));
      if IsReply(t) {
        PairsAtCons(turns, from, RepliesFrom(turns, from + 1));
        assert Prompt(st.last) == PromptFor(turns, from);
        ConcatAssoc(st.pairs, [PairAt(turns, from)], rest);
      } else {
        assert st'.pairs == st.pairs + [];
      }
    } else {
      assert turns[from..] == [];
    }
  }

  /** The pairing fold emits exactly one pair per reply turn, in order:
      the reply's own text in the Patient column, and in the Therapist
      column the text of the turn just before it if that is a Therapist
      turn, otherwise "". */
  lemma PairTurnsByReplies(turns: seq<Turn>)
    ensures |PairTurns(turns)| == |Replies(turns)|
    ensures forall k :: 0 <= k < |Replies(turns)| ==>
      PairTurns(turns)[k] == Pair(PromptFor(turns, Replies(turns)[k]), turns[Replies(turns)[k]].text)
  {
    PairFoldFrom(turns, 0, Pairer(Unset, []));
    assert turns[0..] == turns;
    assert [] + PairsAt(turns, Replies(turns)) == PairsAt(turns, Replies(turns));
  }

  /** The turns before reply `k` and after reply `k - 1` are all Therapist
      turns, so the turn just before a reply, when it is a Therapist turn,
      is the latest Therapist turn since the previous reply; every earlier
      one in that window is discarded. */
  lemma ReplyWindow(turns: seq<Turn>, k: nat)
    requires k < |Replies(turns)|
    ensures var j := Replies(turns)[k];
      var prev: int := if k == 0 then -1 else Replies(turns)[k - 1];
      && prev < j
      && (forall i :: prev < i < j ==> turns[i].speaker == Therapist)
      && k < |PairTurns(turns)|
      && PairTurns(turns)[k].therapist == if prev + 1 < j then turns[j - 1].text else ""
  {
    PairTurnsByReplies(turns);
    var idx := Replies(turns);
    var j := idx[k];
    var prev: int := if k == 0 then -1 else idx[k - 1];
    forall i | prev < i < j
      ensures turns[i].speaker == Therapist
    {
      forall l | 0 <= l < |idx|
        ensures idx[l] != i
      {
        if l < k - 1 {
          assert idx[l] < idx[k - 1];
        } else if l >= k + 1 {
          assert idx[k] < idx[l];
        }
      }
    }
    if prev + 1 < j {
      assert turns[j - 1].speaker == Therapist;
    } else if j > 0 {
      assert IsReply(turns[j - 1]);
    }
  }

  /** A Therapist turn is used in a pair exactly when the turn right after
      it is a reply, and then in exactly one pair. */
  lemma TherapistTurnUse(turns: seq<Turn>, i: nat)
    requires i < |turns| && turns[i].speaker == Therapist
    ensures (exists k :: 0 <= k < |Replies(turns)| && Replies(turns)[k] == i + 1)
        <==> i + 1 < |turns| && IsReply(turns[i + 1])
    ensures forall k, l ::
      (0 <= k < |Replies(turns)| && 0 <= l < |Replies(turns)| && Replies(turns)[k] == i + 1 && Replies(turns)[l] == i + 1)
      ==> k == l
  {
    var idx := Replies(turns);
    if i + 1 < |turns| && IsReply(turns[i + 1]) {
      assert i + 1 in idx;
    }
  }

  /** The Patient column of a list of pairs. */
  function PatientColumn(ps: seq<Pair>): (col: seq<string>)
  {
    seq(|ps|, k requires 0 <= k < |ps| => ps[k].patient)
  }

  /** The texts of the reply turns, in order. */
  function ReplyTexts(turns: seq<Turn>): seq<string>
  {
    if turns == [] then []
    else (if IsReply(turns[0]) then [turns[0].text] else []) + ReplyTexts(turns[1..])
  }

  lemma PatientColumnAppend(a: seq<Pair>, b: seq<Pair>)
    ensures PatientColumn(a + b) == PatientColumn(a) + PatientColumn(b)
  {
  }

  lemma {:induction false} PatientColumnFold(st: Pairer, turns: seq<Turn>)
    ensures PatientColumn(PairFold(st, turns).pairs) == PatientColumn(st.pairs) + ReplyTexts(turns)
    decreases |turns|
  {
    if turns != [] {
      var st' := PairTurn(st, turns[0]);
      PairTurnStep(st, turns[0]);
      PatientColumnFold(st', turns[1..]);
      var added := if IsReply(turns[0]) then [Pair(Prompt(st.last), turns[0].text)] else [];
      PatientColumnAppend(st.pairs, added);
      assert PatientColumn(added) == if IsReply(turns[0]) then [turns[0].text] else [];
      ConcatAssoc(PatientColumn(st.pairs), PatientColumn(added), ReplyTexts(turns[1..]));
    } else {
      assert PatientColumn(st.pairs) + [] == PatientColumn(st.pairs);
    }
  }

  /** One pair per reply turn: the Patient column lists the texts of the
      non-Therapist turns, in their original order, and nothing else. */
  lemma PatientColumnIsReplies(turns: seq<Turn>)
    ensures PatientColumn(PairTurns(turns)) == ReplyTexts(turns)
    ensures |PairTurns(turns)| == |ReplyTexts(turns)|
  {
    PatientColumnFold(Pairer(Unset, []), turns);
    assert PatientColumn([]) + ReplyTexts(turns) == ReplyTexts(turns);
  }
}
