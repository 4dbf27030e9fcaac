# CBT transcript parser, modelled in Dafny

This project models `parse_session` in
`FineTuning_LLM_for_CBT_for_Depression/data_processing.py`. It also models
the pure naming steps of the batch loop around it.

`parse_session` reads a therapy-session transcript as a list of lines and
returns (Therapist, Patient) text pairs. It makes two passes:

- **Segmentation** (`Transcript`, loop in `Parser.SegmentLines`). Each line is
  one of three kinds:
  - a Therapist tag line, matching `^Therapist:\s*(.*)` with letter case ignored;
  - a Patient tag line, matching `^Patient:\s*(.*)`;
  - a continuation line, which is anything else.

  A fold keeps the current speaker, a text buffer and the list of turns. A tag
  line flushes the buffer as a turn and starts a new buffer from the stripped
  capture group. A continuation line appends a space and the stripped line.
  The buffer is flushed once more at the end. A flushed buffer becomes a turn
  only when it is not blank, and the turn's text is stripped.
- **Pairing** (`Pairing`, loop in `Parser.PairConversation`). A second fold
  remembers the latest Therapist text. Every turn not spoken by the Therapist
  produces one pair. The pair carries the remembered text when there is one,
  and `""` otherwise. The remembered text is then cleared.

Each fold is stated twice: once as the script's loop, and once as an
independent description. The two are proved equal for all inputs:

- `Transcript.SegmentIsGrouping`: the segmentation fold equals cutting the
  lines into groups (a preamble, then one group per tag line) with one turn
  per non-blank group.
- `Pairing.PairTurnsByReplies`: the pairing fold equals one pair per reply
  position, carrying the turn just before it when that is a Therapist turn.

The naming helpers (`Naming`) cover four steps:

- the file filter;
- the session number taken from a file name;
- the patient name taken from the folder name;
- the `.csv` output name, through a model of `posixpath.splitext`.

`Parser.SessionTable` puts them together into the rows written for one
directory entry.

Python's `str.strip` and the regex `\s` are modelled over the exact set of
characters for which `str.isspace` holds (`Text.Whitespace`). `re.IGNORECASE`
is modelled as ASCII case folding.

Two behaviours of the code are easy to miss; the model follows the code:

- **Preamble text.** `current_speaker` starts as `None` (line 28), and text
  before the first tag line is flushed with that speaker (lines 41-42 and
  56-57). The pairing loop's `else` branch at line 66 then treats it like a
  Patient turn. So a non-blank file with no tags yields exactly one pair,
  `("", text)` (`Parser.ParseUntagged`). Only an empty or all-blank file
  yields none.
- **Patient name.** The comment at line 87 says the name is "everything after
  the last underscore". The code at line 90 instead joins every
  underscore-separated field after the third with spaces. So
  `A_B_C_Derek_Olsen` gives `Derek Olsen` (`Naming.PatientNameOfTwoWords`),
  not `Olsen`.

## Model

| member | source | states |
|---|---|---|
| Transcript.ClassifyTags | FineTuning_LLM_for_CBT_for_Depression/data_processing.py:15-16 | a line is a Therapist line iff it starts with "therapist:" in any ASCII case; it is a Patient line iff it starts with "patient:" and not "therapist:"; otherwise it is a continuation line |
| Transcript.TagsExclusive | FineTuning_LLM_for_CBT_for_Depression/data_processing.py:37-46 | no line matches both tags, so trying Therapist first never changes the outcome |
| Transcript.LeadingSpaceIsContinuation | FineTuning_LLM_for_CBT_for_Depression/data_processing.py:15-16 | the tag must be at the very start of the line: a line starting with whitespace is a continuation line |
| Transcript.ClassifyIgnoresCase | FineTuning_LLM_for_CBT_for_Depression/data_processing.py:15-16 | two lines equal up to ASCII case are classified alike |
| Transcript.TagRemainder | FineTuning_LLM_for_CBT_for_Depression/data_processing.py:37-50 | for a line without a line feed, the stripped capture group equals the stripped text after the tag's colon, so a tag line resets the buffer to that text |
| Transcript.TagGroupTrim | FineTuning_LLM_for_CBT_for_Depression/data_processing.py:44 | for a line without a line feed, stripping what `\s*(.*)` captures after a tag equals stripping the whole rest of the line |
| Transcript.UpToNewline | FineTuning_LLM_for_CBT_for_Depression/data_processing.py:15 | what `(.*)` captures is the longest prefix without a line feed, stopping at the first line feed |
| Transcript.SegmentTurnsClean | FineTuning_LLM_for_CBT_for_Depression/data_processing.py:31-33 | every turn of the first pass has non-empty text equal to its own strip; blank buffers are dropped |
| Transcript.PushKeepsClean | FineTuning_LLM_for_CBT_for_Depression/data_processing.py:31-33 | `push` appends only non-empty stripped text |
| Transcript.ScanKeepsClean | FineTuning_LLM_for_CBT_for_Depression/data_processing.py:36-53 | the loop only ever appends clean turns |
| Transcript.SegmentIsGrouping | FineTuning_LLM_for_CBT_for_Depression/data_processing.py:27-57 | the segmentation fold equals the grouping description: a preamble group, then one group per tag line with the continuation lines after it, each non-blank group giving one stripped turn in order |
| Transcript.ScanContinuations | FineTuning_LLM_for_CBT_for_Depression/data_processing.py:52-53 | a run of continuation lines only appends, to the buffer, a space and the stripped line for each line; speaker and turns are unchanged |
| Transcript.ScanRun | FineTuning_LLM_for_CBT_for_Depression/data_processing.py:52-53 | the same for a run given as a prefix of the remaining lines |
| Transcript.ScanGroup | FineTuning_LLM_for_CBT_for_Depression/data_processing.py:40-53 | a tag line flushes the old buffer, and the buffer then holds the group's text after its continuation lines |
| Transcript.ScanTagged | FineTuning_LLM_for_CBT_for_Depression/data_processing.py:36-57 | after the preamble, the fold plus the final flush emits the current buffer's turn and then one turn per tagged group |
| Transcript.ScanPreamble | FineTuning_LLM_for_CBT_for_Depression/data_processing.py:28-29 | lines before the first tag only fill the buffer, with no speaker |
| Transcript.FlushIsGroupTurn | FineTuning_LLM_for_CBT_for_Depression/data_processing.py:41-42 | `if buffer: push(...)` emits exactly the turn of a group holding the buffer, which is none when the buffer is blank |
| Transcript.LeadingContinuations | FineTuning_LLM_for_CBT_for_Depression/data_processing.py:52-53 | counts the continuation lines at the front: all lines before it are continuations, and the line at it, if any, is a tag line |
| Transcript.OnlyFirstTurnUnspoken | FineTuning_LLM_for_CBT_for_Depression/data_processing.py:28-50 | every turn after the first has a Therapist or Patient speaker; only preamble text, which is always first, keeps `None` |
| Transcript.TaggedGroupsSpoken | FineTuning_LLM_for_CBT_for_Depression/data_processing.py:43-49 | every group opened by a tag line has a Therapist or Patient speaker, never `None` |
| Transcript.JoinedBlank | FineTuning_LLM_for_CBT_for_Depression/data_processing.py:53 | the text appended by continuation lines is blank iff every one of those lines is blank |
| Transcript.UntaggedTranscript | FineTuning_LLM_for_CBT_for_Depression/data_processing.py:28-29 | with no tag line, a blank input gives no turn and a non-blank one gives a single turn with no speaker holding all the text |
| Transcript.UntaggedGroups | FineTuning_LLM_for_CBT_for_Depression/data_processing.py:52-53 | with no tag line, all lines form the preamble group |
| Transcript.InlineContinuation | FineTuning_LLM_for_CBT_for_Depression/data_processing.py:52-53 | a tag line followed by one non-blank continuation line is one turn: the two stripped texts joined by exactly one space |
| Transcript.GroupsOfTagAndContinuation | FineTuning_LLM_for_CBT_for_Depression/data_processing.py:40-53 | a tag line and a continuation line form an empty preamble and one group holding both |
| Transcript.JoinedTurn | FineTuning_LLM_for_CBT_for_Depression/data_processing.py:31-33 | a non-blank head and one non-blank continuation give the turn `head + " " + strip(line)` |
| Pairing.PairTurnsByReplies | FineTuning_LLM_for_CBT_for_Depression/data_processing.py:60-71 | the pairing fold gives exactly one pair per non-Therapist turn, in order; its Patient text is that turn's text, and its Therapist text is the previous turn's text when that is a Therapist turn, else "" |
| Pairing.PairFoldFrom | FineTuning_LLM_for_CBT_for_Depression/data_processing.py:63-71 | the same, from any position, given the pending Therapist text at that point |
| Pairing.PairTurnStep | FineTuning_LLM_for_CBT_for_Depression/data_processing.py:64-71 | one iteration: a Therapist turn only replaces the pending text; any other turn appends one pair with the pending text (or "") and clears it |
| Pairing.RepliesFrom | FineTuning_LLM_for_CBT_for_Depression/data_processing.py:66 | lists, in increasing order, exactly the positions of the turns not spoken by the Therapist |
| Pairing.ReplyWindow | FineTuning_LLM_for_CBT_for_Depression/data_processing.py:61-71 | the Therapist column is "" or the text of the latest Therapist turn since the previous reply; earlier Therapist turns in that window are discarded |
| Pairing.TherapistTurnUse | FineTuning_LLM_for_CBT_for_Depression/data_processing.py:64-69 | a Therapist turn is used iff the turn right after it is a reply, and then by exactly one pair |
| Pairing.PatientColumnIsReplies | FineTuning_LLM_for_CBT_for_Depression/data_processing.py:63-71 | the Patient column is the texts of the non-Therapist turns in order, and there are as many pairs as such turns |
| Pairing.PatientColumnFold | FineTuning_LLM_for_CBT_for_Depression/data_processing.py:63-71 | from any loop state, the fold adds the reply texts to the Patient column |
| Parser.ParseSession | FineTuning_LLM_for_CBT_for_Depression/data_processing.py:27-71 | the two loops compute the composed folds, and the Patient column lists the texts of the non-Therapist turns |
| Parser.SegmentLines | FineTuning_LLM_for_CBT_for_Depression/data_processing.py:27-57 | the first loop, statement by statement, computes the grouping's turns, each one clean |
| Parser.PairConversation | FineTuning_LLM_for_CBT_for_Depression/data_processing.py:60-71 | the second loop, statement by statement, gives one pair per reply with the Therapist text chosen as above |
| Parser.ParsedPairsClean | FineTuning_LLM_for_CBT_for_Depression/data_processing.py:31-33 | every Patient text is non-empty and stripped; every Therapist text is "" or non-empty and stripped |
| Parser.ParseUntagged | FineTuning_LLM_for_CBT_for_Depression/data_processing.py:52-71 | an input with no tag line gives no pair when blank, and otherwise exactly one pair ("", all its text joined and stripped) |
| Parser.PairOfOneReply | FineTuning_LLM_for_CBT_for_Depression/data_processing.py:66-71 | a single reply turn gives one pair with an empty Therapist column |
| Parser.SessionTable | FineTuning_LLM_for_CBT_for_Depression/data_processing.py:97-112 | a table is written iff the name passes the filter; it is named `OutputName(name)` and has one row per parsed pair (one per reply turn); row k carries the folder's patient name, the name's field 1 as session number (underscore-free), and pair k's Therapist and Patient texts |
| Naming.SessionNumber | FineTuning_LLM_for_CBT_for_Depression/data_processing.py:102 | field 1 exists iff the name holds an underscore, and it holds no underscore |
| Naming.SessionNumberOfSessionFile | FineTuning_LLM_for_CBT_for_Depression/data_processing.py:98-102 | for a name passing the filter, the session number is defined: it is the text after "session_" up to the next underscore |
| Naming.SessionNumberOfFields | FineTuning_LLM_for_CBT_for_Depression/data_processing.py:101-102 | `session_<n>_<rest>` has session number `n` for every underscore-free `n` |
| Naming.PatientNameOfShortFolder | FineTuning_LLM_for_CBT_for_Depression/data_processing.py:89-90 | a folder name with at most three fields has an empty patient name |
| Naming.PatientNameAfterThreeFields | FineTuning_LLM_for_CBT_for_Depression/data_processing.py:89-90 | after three fields, the patient name is the rest of the folder name with each underscore turned into a space |
| Naming.PatientNameOfLastField | FineTuning_LLM_for_CBT_for_Depression/data_processing.py:87-90 | `A_B_C_Derek Olsen` gives `Derek Olsen` |
| Naming.PatientNameOfTwoWords | FineTuning_LLM_for_CBT_for_Depression/data_processing.py:87-90 | `A_B_C_Derek_Olsen` gives `Derek Olsen`, not only the part after the last underscore |
| Naming.SplitExtParts | FineTuning_LLM_for_CBT_for_Depression/data_processing.py:111 | `splitext`'s two parts concatenate back to the name, and the extension is empty or a dot followed by no dot and no slash |
| Naming.OutputNameOfSessionFile | FineTuning_LLM_for_CBT_for_Depression/data_processing.py:111-112 | for a file passing the filter, the output name is the name with ".txt" replaced by ".csv" |
| Text.Trim | FineTuning_LLM_for_CBT_for_Depression/data_processing.py:32-33 | `str.strip` gives text with no leading or trailing whitespace, and is empty iff the input is all whitespace |
| Text.TrimUnique | FineTuning_LLM_for_CBT_for_Depression/data_processing.py:33 | stripping whitespace around stripped text gives that text back |
| Text.TrimIdempotent | FineTuning_LLM_for_CBT_for_Depression/data_processing.py:33 | stripping twice is stripping once |
| Text.Split | FineTuning_LLM_for_CBT_for_Depression/data_processing.py:89 | `str.split` on one character gives at least one field, exactly one iff the separator is absent, and no field holds the separator |
| Text.SplitCount | FineTuning_LLM_for_CBT_for_Depression/data_processing.py:89 | there is one more field than separators |
| Text.JoinSplit | FineTuning_LLM_for_CBT_for_Depression/data_processing.py:89-90 | joining the fields with the separator gives the string back |
| Text.SplitJoin | FineTuning_LLM_for_CBT_for_Depression/data_processing.py:89-90 | splitting a join of separator-free fields gives the fields back |
| Text.JoinSplitReplaces | FineTuning_LLM_for_CBT_for_Depression/data_processing.py:89-90 | joining the fields with another character replaces every separator with that character |
| Text.IndexOf | FineTuning_LLM_for_CBT_for_Depression/data_processing.py:102 | the first occurrence of a character, or the length when there is none |
| Text.LastIndexOf | FineTuning_LLM_for_CBT_for_Depression/data_processing.py:111 | the last occurrence of a character, or -1 when there is none |

## Left out

- Reading files, `splitlines` (line 25), `os.listdir`, `os.makedirs`, `os.path.join`, `os.path.isdir` and `print` are I/O and not modelled. The lines of a transcript are the model's input.
- The pandas `DataFrame`, `df.insert` and `to_csv` (lines 73, 107-114) belong to a foreign library. The model returns the pairs and the rows as sequences, and makes no claim about CSV quoting.
- `re.IGNORECASE` is modelled as ASCII case folding. Non-ASCII characters that Python folds onto ASCII letters, such as U+017F (long s) for `s`, are not covered.
- Transcript.TagRemainder: requires the line to hold no line feed. Lines produced by `splitlines` never do, and for a line that did, `(.*)` would stop at the line feed.
- Transcript.TagGroupTrim: requires the line to hold no line feed, for the same reason.
- Naming.OutputNameOfSessionFile: requires the name to hold no `/`. `os.listdir` entries never contain one.
- `posixpath.splitext` (`Naming.SplitExt`) is modelled for `/` as the only separator, as on POSIX systems.
