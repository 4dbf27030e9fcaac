/** The pure naming steps of the batch loop: which directory entries are
    transcripts, the session number and patient name read off the names,
    and the name of the table written for each transcript. */
module Naming {
  import opened Wrappers
  import opened Text

  const SessionWord: string := "session"
  const SessionPrefix: string := SessionWord + "_"
  const TranscriptExtension: string := ".txt"
  const TableExtension: string := ".csv"

  /** The filter at line 98: names ending in ".txt" and starting with
      "session_" are transcripts. */
  predicate IsSessionFile(name: string) {
    EndsWith(name, TranscriptExtension) && StartsWith(name, SessionPrefix)
  }

  /** `name.split("_")[1]`; `None` where Python would raise `IndexError`
      because the name holds no underscore. */
  function SessionNumber(name: string): (r: Option<string>)
    ensures r.Some? <==> !Lacks(name, '_')
    ensures r.Some? ==> Lacks(r.value, '_')
  {
    var parts := Split(name, '_');
    if |parts| >= 2 then Some(parts[1]) else None
  }

  /** For a transcript name the session number is always defined: it is the
      text after "session_" up to the next underscore, or to the end of the
      name when there is none. */
  lemma SessionNumberOfSessionFile(name: string)
    requires IsSessionFile(name)
    ensures var rest := name[|SessionPrefix|..];
      SessionNumber(name) == Some(rest[..IndexOf(rest, '_')])
  {
    var rest := name[|SessionPrefix|..];
    assert name == SessionWord + "_" + rest by {
      assert name[..|SessionPrefix|] == SessionPrefix;
    }
    SessionWordLacksSeparator();
    SplitAfterPiece(SessionWord, '_', rest);
    SplitFirst(rest, '_');
  }

  lemma SessionWordLacksSeparator()
    ensures Lacks(SessionWord, '_')
  {
    forall i | 0 <= i < |SessionWord|
      ensures SessionWord[i] != '_'
    {
    }
  }

  /** `session_<n>_<anything>` has session number `n` whenever `n` holds no
      underscore. */
  lemma SessionNumberOfFields(n: string, rest: string)
    requires Lacks(n, '_')
    ensures SessionNumber(SessionPrefix + n + "_" + rest) == Some(n)
  {
    var tail := n + "_" + rest;
    LastField(SessionPrefix, n, "_", rest);
    SplitAfterPiece(n, '_', rest);
    SessionWordLacksSeparator();
    SplitAfterPiece(SessionWord, '_', tail);
  }

  /** Lines 89-90: the folder name's underscore-separated fields from the
      fourth on, joined with single spaces (empty if there are at most
      three fields). */
  function PatientName(folder: string): string
  {
    Join(" ", DropFirst(Split(folder, '_'), 3))
  }

  /** A folder name with at most two underscores has an empty patient name. */
  lemma PatientNameOfShortFolder(folder: string)
    requires Count(folder, '_') <= 2
    ensures PatientName(folder) == ""
  {
    SplitCount(folder, '_');
  }

  /** After three underscore-free fields, the patient name is the rest of
      the folder name with every underscore turned into a space; it is not
      only the text after the last underscore. */
  lemma PatientNameAfterThreeFields(a: string, b: string, c: string, rest: string)
    requires Lacks(a, '_') && Lacks(b, '_') && Lacks(c, '_')
    ensures PatientName(a + "_" + b + "_" + c + "_" + rest) == Replace(rest, '_', ' ')
  {
    var s3 := c + "_" + rest;
    var s2 := b + "_" + s3;
    RightNested(a, b, c, rest, "_");
    SplitAfterPiece(c, '_', rest);
    SplitAfterPiece(b, '_', s3);
    SplitAfterPiece(a, '_', s2);
    ThreeHeads(Split(a + "_" + s2, '_'), a, b, c, Split(rest, '_'));
    JoinSplitReplaces(rest, '_', ' ');
  }

  /** A folder named like `CBT_Depression_Simulation_Derek Olsen` gives
      the patient name `Derek Olsen`: a fourth field with no underscore is
      the name, spaces and all. */
  lemma PatientNameOfLastField(a: string, b: string, c: string, name: string)
    requires Lacks(a, '_') && Lacks(b, '_') && Lacks(c, '_') && Lacks(name, '_')
    ensures PatientName(a + "_" + b + "_" + c + "_" + name) == name
  {
    PatientNameAfterThreeFields(a, b, c, name);
    ReplaceWithout(name, '_', ' ');
  }

  /** Re-bracketing four fields and three separators. */
  lemma RightNested<T>(a: seq<T>, b: seq<T>, c: seq<T>, d: seq<T>, x: seq<T>)
    ensures a + x + b + x + c + x + d == a + x + (b + x + (c + x + d))
  {
  }

  lemma ThreeHeads<T>(xs: seq<T>, a: T, b: T, c: T, tail: seq<T>)
    requires xs == [a] + ([b] + ([c] + tail))
    ensures DropFirst(xs, 3) == tail
  {
    assert xs[3..] == tail;
  }

  /** A folder named like `CBT_Depression_Simulation_Derek_Olsen` gives the
      patient name `Derek Olsen`: the underscore inside the name becomes a
      space. */
  lemma PatientNameOfTwoWords(a: string, b: string, c: string, first: string, last: string)
    requires Lacks(a, '_') && Lacks(b, '_') && Lacks(c, '_')
    requires Lacks(first, '_') && Lacks(last, '_')
    ensures PatientName(a + "_" + b + "_" + c + "_" + first + "_" + last) == first + " " + last
  {
    var name := first + "_" + last;
    LastField(a + "_" + b + "_" + c + "_", first, "_", last);
    PatientNameAfterThreeFields(a, b, c, name);
    assert name[..|first|] == first && name[|first| + 1..] == last;
    ReplaceAround(name, |first|, '_', ' ');
    ReplaceWithout(first, '_', ' ');
    ReplaceWithout(last, '_', ' ');
  }

  lemma LastField<T>(p: seq<T>, a: seq<T>, x: seq<T>, b: seq<T>)
    ensures p + a + x + b == p + (a + x + b)
  {
  }

  /** Python's `posixpath.splitext`: split before the last dot of the last
      path component, unless that component is only dots up to it (a
      leading-dot name has no extension). */
  function SplitExt(path: string): (string, string)
  {
    var sepIndex := LastIndexOf(path, '/');
    var dotIndex := LastIndexOf(path, '.');
    if dotIndex > sepIndex && HasNonDot(path[sepIndex + 1..dotIndex]) then
      (path[..dotIndex], path[dotIndex..])
    else
      (path, "")
  }

  predicate HasNonDot(s: string) {
    exists i :: 0 <= i < |s| && s[i] != '.'
  }

  /** The two parts of `SplitExt` concatenate back to the path, and the
      extension is empty or a dot followed by no other dot and no slash. */
  lemma SplitExtParts(path: string)
    ensures SplitExt(path).0 + SplitExt(path).1 == path
    ensures var ext := SplitExt(path).1;
      ext == [] || (ext[0] == '.' && Lacks(ext[1..], '.') && Lacks(ext, '/'))
  {
    var sepIndex := LastIndexOf(path, '/');
    var dotIndex := LastIndexOf(path, '.');
    if dotIndex > sepIndex && HasNonDot(path[sepIndex + 1..dotIndex]) {
      ExtensionShape(path, sepIndex, dotIndex);
    } else {
      assert path + "" == path;
    }
  }

  lemma ExtensionShape(path: string, sepIndex: int, dotIndex: int)
    requires -1 <= sepIndex < dotIndex < |path|
    requires path[dotIndex] == '.'
    requires forall j :: dotIndex < j < |path| ==> path[j] != '.'
    requires forall j :: sepIndex < j < |path| ==> path[j] != '/'
    ensures path[..dotIndex] + path[dotIndex..] == path
    ensures var ext := path[dotIndex..];
      ext[0] == '.' && Lacks(ext[1..], '.') && Lacks(ext, '/')
  {
    var ext := path[dotIndex..];
    forall j | 0 <= j < |ext|
      ensures ext[j] == path[dotIndex + j]
    {
    }
    forall j | 0 <= j < |ext[1..]|
      ensures ext[1..][j] == path[dotIndex + 1 + j]
    {
    }
  }

  /** Lines 111-112: the table's file name is the transcript's name with its
      extension replaced by ".csv". */
  function OutputName(name: string): string
  {
    SplitExt(name).0 + TableExtension
  }

  /** A transcript's table keeps the whole name up to ".txt" and ends in
      ".csv" (directory entries never contain a slash). */
  lemma OutputNameOfSessionFile(name: string)
    requires IsSessionFile(name) && Lacks(name, '/')
    ensures SplitExt(name) == (name[..|name| - 4], TranscriptExtension)
    ensures OutputName(name) == name[..|name| - 4] + TableExtension
  {
    var dot := |name| - 4;
    var ext := name[dot..];
    assert ext == TranscriptExtension;
    assert name[dot] == ext[0] == '.';
    assert name[dot + 1] == ext[1] && name[dot + 2] == ext[2] && name[dot + 3] == ext[3];
    LastIndexOfAt(name, '.', dot);
    assert LastIndexOf(name, '/') == -1;
    assert name[0] == 's';
    assert HasNonDot(name[..dot]) by {
      assert name[..dot][0] == 's';
    }
  }
}
