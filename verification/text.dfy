/** String helpers with Python's meaning: `str.strip()`, `str.startswith`,
    `str.endswith`, `str.split(sep)` with a one-character separator,
    `sep.join(parts)`, and the ASCII part of `re.IGNORECASE`. */
module Text {

  /** The characters Python's `str.isspace()` accepts: tab to carriage
      return, the four information separators, space, next-line, no-break
      space and the Unicode space separators, line and paragraph separators.
      `str.strip()` removes exactly these, and the regex class `\s` matches
      exactly these. */
  const Whitespace: set<char> := {
    '\t', '\n', '\U{B}', '\U{C}', '\r', '\U{1C}', '\U{1D}', '\U{1E}', '\U{1F}', ' ',
    '\U{85}', '\U{A0}', '\U{1680}',
    '\U{2000}', '\U{2001}', '\U{2002}', '\U{2003}', '\U{2004}', '\U{2005}',
    '\U{2006}', '\U{2007}', '\U{2008}', '\U{2009}', '\U{200A}',
    '\U{2028}', '\U{2029}', '\U{202F}', '\U{205F}', '\U{3000}'}

  predicate IsSpace(c: char) {
    c in Whitespace
  }

  lemma SpaceIsNotLetter(c: char)
    requires IsSpace(c)
    ensures AsciiLower(c) == c
    ensures !('a' <= c <= 'z')
  {
  }

  predicate AllSpace(s: string) {
    forall i :: 0 <= i < |s| ==> IsSpace(s[i])
  }

  /** Neither end of `s` is whitespace. */
  predicate IsTrimmed(s: string) {
    s == [] || (!IsSpace(s[0]) && !IsSpace(s[|s| - 1]))
  }

  /** How many whitespace characters `s` starts with. */
  function LeadingSpace(s: string): (k: nat)
    ensures k <= |s|
    ensures forall i :: 0 <= i < k ==> IsSpace(s[i])
    ensures k < |s| ==> !IsSpace(s[k])
  {
    if s != [] && IsSpace(s[0]) then 1 + LeadingSpace(s[1..]) else 0
  }

  /** Where the whitespace `s` ends with begins. */
  function TrailingSpace(s: string): (e: nat)
    ensures e <= |s|
    ensures forall i :: e <= i < |s| ==> IsSpace(s[i])
    ensures 0 < e ==> !IsSpace(s[e - 1])
  {
    if s != [] && IsSpace(s[|s| - 1]) then TrailingSpace(s[..|s| - 1]) else |s|
  }

  /** Python's `str.lstrip()`: the suffix of `s` from its first non-space
      character on. */
  function TrimStart(s: string): string
  {
    s[LeadingSpace(s)..]
  }

  /** Python's `str.strip()`: the infix of `s` left after removing
      whitespace from both ends. It is empty exactly when `s` is blank. */
  function Trim(s: string): (r: string)
    ensures IsTrimmed(r)
    ensures r == [] <==> AllSpace(s)
  {
    var k := LeadingSpace(s);
    if k == |s| then [] else s[k..TrailingSpace(s)]
  }

  /** `Trim` is characterised by its result: whenever `s` is a trimmed core
      `m` between two runs of whitespace, stripping `s` gives back `m`. */
  lemma TrimUnique(a: string, m: string, b: string)
    requires AllSpace(a) && AllSpace(b) && IsTrimmed(m)
    ensures Trim(a + m + b) == m
  {
    var s := a + m + b;
    if m == [] {
      forall i | 0 <= i < |s|
        ensures IsSpace(s[i])
      {
        if i < |a| { assert s[i] == a[i]; } else { assert s[i] == b[i - |a|]; }
      }
    } else {
      var e := |a| + |m|;
      assert s[|a|] == m[0];
      assert s[e - 1] == m[|m| - 1];
      forall i | 0 <= i < |a|
        ensures IsSpace(s[i])
      {
        assert s[i] == a[i];
      }
      forall i | e <= i < |s|
        ensures IsSpace(s[i])
      {
        assert s[i] == b[i - e];
      }
      assert LeadingSpace(s) == |a|;
      assert TrailingSpace(s) == e;
      assert s[|a|..e] == m;
    }
  }

  /** Stripping a string that has no whitespace at either end changes nothing. */
  lemma TrimOfTrimmed(s: string)
    requires IsTrimmed(s)
    ensures Trim(s) == s
  {
    if s != [] {
      assert LeadingSpace(s) == 0;
      assert TrailingSpace(s) == |s|;
      assert s[0..|s|] == s;
    }
  }

  lemma TrimIdempotent(s: string)
    ensures Trim(Trim(s)) == Trim(s)
  {
    TrimOfTrimmed(Trim(s));
  }

  /** Stripping the leading whitespace first does not change the result. */
  lemma TrimAfterTrimStart(s: string)
    ensures Trim(TrimStart(s)) == Trim(s)
  {
    var k := LeadingSpace(s);
    var t := TrimStart(s);
    if k < |s| {
      var e := TrailingSpace(s);
      assert t[0] == s[k];
      assert LeadingSpace(t) == 0;
      assert t[e - k - 1] == s[e - 1];
      forall i | e - k <= i < |t|
        ensures IsSpace(t[i])
      {
        assert t[i] == s[k + i];
      }
      assert TrailingSpace(t) == e - k;
      assert t[0..e - k] == s[k..e];
    }
  }

  lemma ConcatAssoc<T>(a: seq<T>, b: seq<T>, c: seq<T>)
    ensures a + (b + c) == (a + b) + c
  {
  }

  lemma TailSlice<T>(s: seq<T>, i: nat)
    requires i < |s|
    ensures s[i..] == [s[i]] + s[i + 1..]
    ensures s[i..][0] == s[i] && s[i..][1..] == s[i + 1..]
  {
  }

  lemma SliceOfTail<T>(s: seq<T>, k: nat)
    requires 1 + k <= |s|
    ensures s[1..][..k] == s[1..1 + k]
    ensures s[1..][k..] == s[1 + k..]
  {
  }

  lemma AllSpaceConcat(a: string, b: string)
    ensures AllSpace(a + b) <==> AllSpace(a) && AllSpace(b)
  {
    if AllSpace(a + b) {
      assert forall i :: 0 <= i < |a| ==> a[i] == (a + b)[i];
      assert forall i :: 0 <= i < |b| ==> b[i] == (a + b)[|a| + i];
    }
    if AllSpace(a) && AllSpace(b) {
      forall i | 0 <= i < |a + b|
        ensures IsSpace((a + b)[i])
      {
        if i < |a| { assert (a + b)[i] == a[i]; } else { assert (a + b)[i] == b[i - |a|]; }
      }
    }
  }

  /** A stripped string is blank only when it is empty. */
  lemma TrimBlank(s: string)
    ensures AllSpace(Trim(s)) <==> AllSpace(s)
  {
    var t := Trim(s);
    if t != [] {
      assert !IsSpace(t[0]);
    }
  }

  /** Two non-empty trimmed words joined by one space are already trimmed. */
  lemma TrimSpaceJoin(a: string, b: string)
    requires a != [] && b != [] && IsTrimmed(a) && IsTrimmed(b)
    ensures Trim(a + " " + b) == a + " " + b
  {
    TrimOfTrimmed(a + " " + b);
  }

  /** ASCII case folding, the part of `re.IGNORECASE` this model covers. */
  function AsciiLower(c: char): (r: char)
    ensures 'A' <= c <= 'Z' ==> r as int == c as int + 32
    ensures !('A' <= c <= 'Z') ==> r == c
  {
    if 'A' <= c <= 'Z' then (c as int + 32) as char else c
  }

  /** `s` with every ASCII capital letter folded to lower case. */
  function LowerAscii(s: string): (r: string)
    ensures |r| == |s|
    ensures forall i :: 0 <= i < |s| ==> r[i] == AsciiLower(s[i])
  {
    seq(|s|, i requires 0 <= i < |s| => AsciiLower(s[i]))
  }

  /** `s` starts with `prefix`, comparing letters without regard to ASCII case. */
  predicate StartsWithIgnoringCase(s: string, prefix: string) {
    |prefix| <= |s| && LowerAscii(s[..|prefix|]) == LowerAscii(prefix)
  }

  predicate StartsWith(s: string, prefix: string) {
    |prefix| <= |s| && s[..|prefix|] == prefix
  }

  predicate EndsWith(s: string, suffix: string) {
    |suffix| <= |s| && s[|s| - |suffix|..] == suffix
  }

  /** `c` occurs nowhere in `s`: Python's `c not in s`. */
  predicate Lacks(s: string, c: char) {
    forall i :: 0 <= i < |s| ==> s[i] != c
  }

  /** Number of occurrences of `c` in `s`. */
  function Count(s: string, c: char): nat
  {
    if s == [] then 0 else (if s[0] == c then 1 else 0) + Count(s[1..], c)
  }

  /** Index of the first `c` in `s`, or `|s|` when there is none. */
  function IndexOf(s: string, c: char): (i: nat)
    ensures i <= |s|
    ensures forall j :: 0 <= j < i ==> s[j] != c
    ensures i < |s| ==> s[i] == c
  {
    if s == [] || s[0] == c then 0 else 1 + IndexOf(s[1..], c)
  }

  /** Index of the last `c` in `s`, or -1 when there is none (`str.rfind`). */
  function LastIndexOf(s: string, c: char): (i: int)
    ensures -1 <= i < |s|
    ensures forall j :: i < j < |s| ==> s[j] != c
    ensures 0 <= i ==> s[i] == c
  {
    if s == [] then -1
    else if s[|s| - 1] == c then |s| - 1
    else LastIndexOf(s[..|s| - 1], c)
  }

  /** Python's `s.split(sep)` for a one-character separator: the text
      before the first separator, then the pieces of what follows it. There
      is always at least one piece, exactly one when `s` has no separator,
      and no piece contains the separator. */
  function Split(s: string, sep: char): (r: seq<string>)
    ensures |r| >= 1
    ensures |r| == 1 <==> Lacks(s, sep)
    ensures forall k :: 0 <= k < |r| ==> Lacks(r[k], sep)
    decreases |s|
  {
    var i := IndexOf(s, sep);
    if i == |s| then [s] else [s[..i]] + Split(s[i + 1..], sep)
  }

  /** Python's `sep.join(parts)`. */
  function Join(sep: string, parts: seq<string>): string
  {
    if |parts| == 0 then ""
    else if |parts| == 1 then parts[0]
    else parts[0] + sep + Join(sep, parts[1..])
  }

  /** Python's slice `parts[n:]`, which is empty when `n` is past the end. */
  function DropFirst<T>(parts: seq<T>, n: nat): (r: seq<T>)
    ensures n <= |parts| ==> r == parts[n..]
    ensures n >= |parts| ==> r == []
  {
    if n <= |parts| then parts[n..] else []
  }

  /** Every occurrence of `from` in `s` replaced by `to`. */
  function Replace(s: string, from: char, to: char): string
  {
    seq(|s|, i requires 0 <= i < |s| => if s[i] == from then to else s[i])
  }

  /** A string with a separator splits at the first one. */
  lemma SplitAt(s: string, sep: char)
    requires IndexOf(s, sep) < |s|
    ensures var i := IndexOf(s, sep);
      Split(s, sep) == [s[..i]] + Split(s[i + 1..], sep)
  {
  }

  /** The first piece is everything before the first separator. */
  lemma SplitFirst(s: string, sep: char)
    ensures Split(s, sep)[0] == s[..IndexOf(s, sep)]
  {
    if IndexOf(s, sep) == |s| {
      assert s[..|s|] == s;
    }
  }

  /** `IndexOf` finds the first occurrence. */
  lemma {:induction false} IndexOfAt(s: string, c: char, i: nat)
    requires i < |s| && s[i] == c
    requires forall j :: 0 <= j < i ==> s[j] != c
    ensures IndexOf(s, c) == i
    decreases i
  {
    if i > 0 {
      IndexOfAt(s[1..], c, i - 1);
    }
  }

  /** The last occurrence is the one with no occurrence after it. */
  lemma {:induction false} LastIndexOfAt(s: string, c: char, i: nat)
    requires i < |s| && s[i] == c
    requires forall j :: i < j < |s| ==> s[j] != c
    ensures LastIndexOf(s, c) == i
    decreases |s|
  {
    if i < |s| - 1 {
      LastIndexOfAt(s[..|s| - 1], c, i);
    }
  }

  /** Nothing is counted exactly when `c` does not occur. */
  lemma {:induction false} CountZero(s: string, c: char)
    ensures Count(s, c) == 0 <==> Lacks(s, c)
    decreases |s|
  {
    if s != [] {
      CountZero(s[1..], c);
      assert forall j :: 1 <= j < |s| ==> s[j] == s[1..][j - 1];
    }
  }

  /** Past the first occurrence there is one fewer to count. */
  lemma {:induction false} CountAfterFirst(s: string, c: char)
    requires IndexOf(s, c) < |s|
    ensures Count(s, c) == 1 + Count(s[IndexOf(s, c) + 1..], c)
    decreases |s|
  {
    if s[0] != c {
      CountAfterFirst(s[1..], c);
      SliceOfTail(s, IndexOf(s, c));
    }
  }

  /** There is one piece more than there are separators. */
  lemma {:induction false} SplitCount(s: string, sep: char)
    ensures |Split(s, sep)| == Count(s, sep) + 1
    decreases |s|
  {
    var i := IndexOf(s, sep);
    if i < |s| {
      SplitAt(s, sep);
      SplitCount(s[i + 1..], sep);
      CountAfterFirst(s, sep);
    } else {
      CountZero(s, sep);
    }
  }

  /** A string with no separator splits into itself. */
  lemma SplitWithoutSeparator(s: string, sep: char)
    requires Lacks(s, sep)
    ensures Split(s, sep) == [s]
  {
  }

  /** Splitting `p + sep + rest` yields `p` followed by the pieces of `rest`. */
  lemma SplitAfterPiece(p: string, sep: char, rest: string)
    requires Lacks(p, sep)
    ensures Split(p + [sep] + rest, sep) == [p] + Split(rest, sep)
  {
    var s := p + [sep] + rest;
    IndexOfAt(s, sep, |p|);
    assert s[..|p|] == p;
    assert s[|p| + 1..] == rest;
  }

  /** Joining the pieces with the separator replaced by `to` is the same as
      replacing the separator in place: so `Join` undoes `Split`. */
  lemma {:induction false} JoinSplitReplaces(s: string, sep: char, to: char)
    ensures Join([to], Split(s, sep)) == Replace(s, sep, to)
    decreases |s|
  {
    var i := IndexOf(s, sep);
    if i == |s| {
      ReplaceWithout(s, sep, to);
    } else {
      var head, tail := s[..i], s[i + 1..];
      SplitAt(s, sep);
      JoinSplitReplaces(tail, sep, to);
      JoinCons([to], head, Split(tail, sep));
      ReplaceWithout(head, sep, to);
      ReplaceAround(s, i, sep, to);
    }
  }

  /** Replacing around one occurrence: the part before it, the replacement,
      the part after it. */
  lemma ReplaceAround(s: string, i: nat, from: char, to: char)
    requires i < |s| && s[i] == from
    ensures Replace(s, from, to) == Replace(s[..i], from, to) + [to] + Replace(s[i + 1..], from, to)
  {
    var r := Replace(s, from, to);
    var t := Replace(s[..i], from, to) + [to] + Replace(s[i + 1..], from, to);
    forall j | 0 <= j < |r|
      ensures r[j] == t[j]
    {
      if j < i {
        assert t[j] == Replace(s[..i], from, to)[j];
      } else if j > i {
        assert t[j] == Replace(s[i + 1..], from, to)[j - i - 1];
      }
    }
  }

  lemma JoinCons(sep: string, a: string, rest: seq<string>)
    requires |rest| >= 1
    ensures Join(sep, [a] + rest) == a + sep + Join(sep, rest)
  {
    assert ([a] + rest)[1..] == rest;
  }

  lemma ReplaceWithout(s: string, from: char, to: char)
    requires Lacks(s, from)
    ensures Replace(s, from, to) == s
  {
  }

  lemma ReplaceIdentity(s: string, c: char)
    ensures Replace(s, c, c) == s
  {
  }

  /** Round trip one way: joining the pieces of a split restores the string. */
  lemma JoinSplit(s: string, sep: char)
    ensures Join([sep], Split(s, sep)) == s
  {
    JoinSplitReplaces(s, sep, sep);
    ReplaceIdentity(s, sep);
  }

  /** Round trip the other way: separator-free pieces survive join then split. */
  lemma {:induction false} SplitJoin(parts: seq<string>, sep: char)
    requires |parts| >= 1
    requires forall i :: 0 <= i < |parts| ==> Lacks(parts[i], sep)
    ensures Split(Join([sep], parts), sep) == parts
    decreases |parts|
  {
    if |parts| == 1 {
      SplitWithoutSeparator(parts[0], sep);
    } else {
      SplitJoin(parts[1..], sep);
      SplitAfterPiece(parts[0], sep, Join([sep], parts[1..]));
      assert [parts[0]] + parts[1..] == parts;
    }
  }
}
