/**
 * The Python `str` operations the converter and the search helper are built
 * from: `in`, `find`, `replace`, `split(sep)`, `sep.join`, `split()` on
 * whitespace and `capitalize()`. Characters are treated as ASCII.
 */
module PyStr {
  import opened Wrappers

  /** The ASCII part of Python's `str.isspace`: space, \t \n \v \f \r and the
      separators \x1c to \x1f. The `\s` class of the `re` module matches the same set. */
  predicate IsSpace(c: char) {
    var n := c as int;
    n == 32 || 9 <= n <= 13 || 28 <= n <= 31
  }

  /** `pat` occurs in `s` starting at index `i`. */
  predicate OccursAt(s: string, pat: string, i: nat) {
    i + |pat| <= |s| && s[i..i + |pat|] == pat
  }

  /** Python's `pat in s`; the empty string is in every string. */
  predicate Contains(s: string, pat: string) {
    exists i: nat | i <= |s| :: OccursAt(s, pat, i)
  }

  predicate StartsWith(s: string, prefix: string) {
    |prefix| <= |s| && s[..|prefix|] == prefix
  }

  /** Occurrences in `s[1..]` are the occurrences in `s` shifted by one. */
  lemma {:induction false} OccursShift(s: string, pat: string)
    requires |s| > 0
    ensures forall i: nat :: OccursAt(s[1..], pat, i) <==> OccursAt(s, pat, i + 1)
    ensures forall j: nat :: 0 < j ==> (OccursAt(s, pat, j) <==> OccursAt(s[1..], pat, j - 1))
  {
    forall i: nat ensures OccursAt(s[1..], pat, i) <==> OccursAt(s, pat, i + 1) {
      if i + |pat| <= |s| - 1 {
        assert s[1..][i..i + |pat|] == s[i + 1..i + 1 + |pat|];
      }
    }
  }

  /** An occurrence inside `s[from..]` is an occurrence in `s`, and back. */
  lemma {:induction false} OccursInSuffix(s: string, pat: string, from: nat, i: nat)
    requires from <= |s|
    ensures OccursAt(s[from..], pat, i) <==> OccursAt(s, pat, from + i)
  {
    if from + i + |pat| <= |s| {
      assert s[from..][i..i + |pat|] == s[from + i..from + i + |pat|];
    }
  }

  /** An occurrence inside the prefix `s[..n]` is an occurrence in `s`. */
  lemma {:induction false} OccursInPrefix(s: string, pat: string, n: nat, i: nat)
    requires n <= |s|
    requires OccursAt(s[..n], pat, i)
    ensures OccursAt(s, pat, i) && i + |pat| <= n
  {
    assert s[..n][i..i + |pat|] == s[i..i + |pat|];
  }

  /** An occurrence of `a + b` contains an occurrence of `b`. */
  lemma {:induction false} OccursOfSuffix(s: string, a: string, b: string, i: nat)
    requires OccursAt(s, a + b, i)
    ensures OccursAt(s, b, i + |a|)
  {
    assert s[i + |a|..i + |a| + |b|] == s[i..i + |a + b|][|a|..];
  }

  /** Python's `s.find(pat)`: the leftmost occurrence, or None where `find` gives -1. */
  function Find(s: string, pat: string): (r: Option<nat>)
    ensures r.Some? ==> r.value + |pat| <= |s|
    decreases |s|
  {
    if |s| < |pat| then None
    else if s[..|pat|] == pat then Some(0)
    else
      match Find(s[1..], pat)
      case None => None
      case Some(i) => Some(i + 1)
  }

  /** The pattern occurs where `find` points. */
  lemma {:induction false} FindOccurs(s: string, pat: string)
    ensures Find(s, pat).Some? ==> OccursAt(s, pat, Find(s, pat).value)
    decreases |s|
  {
    if |s| >= |pat| && s[..|pat|] != pat {
      FindOccurs(s[1..], pat);
      if Find(s[1..], pat).Some? {
        var i := Find(s[1..], pat).value;
        assert s[1..][i..i + |pat|] == s[i + 1..i + 1 + |pat|];
      }
    }
  }

  /** `find` finds nothing exactly when the pattern does not occur. */
  lemma {:induction false} FindAbsent(s: string, pat: string)
    ensures Find(s, pat).None? <==> !Contains(s, pat)
    decreases |s|
  {
    FindOccurs(s, pat);
    if |s| < |pat| {
    } else if s[..|pat|] == pat {
      assert OccursAt(s, pat, 0);
    } else if Contains(s, pat) {
      FindAbsent(s[1..], pat);
      var j: nat :| j <= |s| && OccursAt(s, pat, j);
      assert j != 0 by {
        assert s[0..|pat|] == s[..|pat|];
      }
      assert s[1..][j - 1..j - 1 + |pat|] == s[j..j + |pat|];
      assert OccursAt(s[1..], pat, j - 1);
    }
  }

  /** The pattern occurs nowhere before the index `find` gives. */
  lemma {:induction false} FindFirst(s: string, pat: string)
    ensures Find(s, pat).Some? ==> forall j: nat :: j < Find(s, pat).value ==> !OccursAt(s, pat, j)
    decreases |s|
  {
    if |s| >= |pat| && s[..|pat|] != pat && Find(s, pat).Some? {
      FindFirst(s[1..], pat);
      var i := Find(s[1..], pat).value;
      forall j: nat | j < i + 1 ensures !OccursAt(s, pat, j) {
        if j == 0 {
          assert s[0..|pat|] == s[..|pat|];
        } else {
          assert !OccursAt(s[1..], pat, j - 1);
          if j + |pat| <= |s| {
            assert s[1..][j - 1..j - 1 + |pat|] == s[j..j + |pat|];
          }
        }
      }
    }
  }

  /** `find` gives the leftmost occurrence: the pattern occurs at the result and
      nowhere before it, and there is no result exactly when the pattern is absent. */
  lemma {:induction false} FindLeftmost(s: string, pat: string)
    ensures var r := Find(s, pat);
      && (r.Some? ==> OccursAt(s, pat, r.value))
      && (r.Some? ==> forall j: nat :: j < r.value ==> !OccursAt(s, pat, j))
      && (r.None? <==> !Contains(s, pat))
  {
    FindOccurs(s, pat);
    FindFirst(s, pat);
    FindAbsent(s, pat);
  }

  /** Python's `s.replace(pat, rep)`: scanning left to right, every occurrence of
      `pat` that does not overlap an earlier replaced one becomes `rep`. An empty
      `pat` inserts `rep` before every character and at the end. */
  function Replace(s: string, pat: string, rep: string): string
    decreases |s|
  {
    if |pat| == 0 then
      if |s| == 0 then rep else rep + [s[0]] + Replace(s[1..], pat, rep)
    else if |s| < |pat| then s
    else if s[..|pat|] == pat then rep + Replace(s[|pat|..], pat, rep)
    else [s[0]] + Replace(s[1..], pat, rep)
  }

  /** Python's `s.split(sep)` for a non-empty separator: the pieces between the
      non-overlapping occurrences of `sep`, found left to right. */
  function Split(s: string, sep: string): (r: seq<string>)
    requires |sep| > 0
    ensures |r| >= 1
    decreases |s|
  {
    match Find(s, sep)
    case None => [s]
    case Some(i) => [s[..i]] + Split(s[i + |sep|..], sep)
  }

  /** Python's `sep.join(parts)`. */
  function Join(parts: seq<string>, sep: string): string
    decreases |parts|
  {
    if |parts| == 0 then ""
    else if |parts| == 1 then parts[0]
    else parts[0] + sep + Join(parts[1..], sep)
  }

  /** Length of the longest prefix of `s` that holds no whitespace. */
  function WordLength(s: string): (n: nat)
    ensures n <= |s|
    ensures forall k :: 0 <= k < n ==> !IsSpace(s[k])
    ensures n < |s| ==> IsSpace(s[n])
  {
    if |s| == 0 || IsSpace(s[0]) then 0 else 1 + WordLength(s[1..])
  }

  /** Python's `s.split()` without arguments: the maximal runs of non-whitespace. */
  function SplitWhitespace(s: string): seq<string>
    decreases |s|
  {
    if |s| == 0 then []
    else if IsSpace(s[0]) then SplitWhitespace(s[1..])
    else [s[..WordLength(s)]] + SplitWhitespace(s[WordLength(s)..])
  }

  /** A word as `split()` returns it: non-empty and free of whitespace. */
  predicate IsWord(w: string) {
    |w| > 0 && forall k :: 0 <= k < |w| ==> !IsSpace(w[k])
  }

  function Upper(c: char): char {
    if 'a' <= c <= 'z' then (c as int - 32) as char else c
  }

  function Lower(c: char): char {
    if 'A' <= c <= 'Z' then (c as int + 32) as char else c
  }

  /** Python's `w.capitalize()` on ASCII: first character upper case, the rest lower case. */
  function Capitalize(w: string): string {
    if |w| == 0 then "" else [Upper(w[0])] + seq(|w| - 1, k requires 0 <= k < |w| - 1 => Lower(w[k + 1]))
  }

  // ---------------------------------------------------------------- replace

  /** Replacing a substring that does not occur leaves the string as it was. */
  lemma {:induction false} ReplaceAbsent(s: string, pat: string, rep: string)
    requires !Contains(s, pat)
    ensures Replace(s, pat, rep) == s
    decreases |s|
  {
    assert !OccursAt(s, pat, 0);
    if |s| >= |pat| {
      assert s[0..|pat|] == s[..|pat|];
      OccursShift(s, pat);
      ReplaceAbsent(s[1..], pat, rep);
    }
  }

  /** `parts` with the character `c` put in front of its first piece. */
  function PrependToFirst(c: char, parts: seq<string>): seq<string>
    requires |parts| > 0
  {
    [[c] + parts[0]] + parts[1..]
  }

  lemma {:induction false} JoinPrepend(c: char, parts: seq<string>, sep: string)
    requires |parts| > 0
    ensures Join(PrependToFirst(c, parts), sep) == [c] + Join(parts, sep)
  {
    var q := PrependToFirst(c, parts);
    if |parts| > 1 {
      assert q[1..] == parts[1..];
    }
  }

  /** Splitting a string that starts with the separator gives an empty first piece. */
  lemma {:induction false} SplitAtStart(s: string, sep: string)
    requires |sep| > 0 && StartsWith(s, sep)
    ensures Split(s, sep) == [""] + Split(s[|sep|..], sep)
  {
    assert OccursAt(s, sep, 0);
    assert s[..0] == "";
  }

  /** Splitting a string that does not start with the separator: its first
      character goes in front of the first piece of the split of the rest. */
  lemma {:induction false} SplitAfterFirst(s: string, sep: string)
    requires |sep| > 0 && |s| >= |sep| && s[..|sep|] != sep
    ensures Split(s, sep) == PrependToFirst(s[0], Split(s[1..], sep))
  {
    match Find(s[1..], sep)
    case None =>
      assert Find(s, sep).None?;
      assert [s[0]] + s[1..] == s;
    case Some(i) =>
      assert Find(s, sep) == Some(i + 1);
      SplitAfterFound(s, sep, i);
  }

  /** The case of `SplitAfterFirst` where the rest holds the separator at `i`. */
  lemma {:induction false} SplitAfterFound(s: string, sep: string, i: nat)
    requires |sep| > 0 && |s| >= 1 && Find(s[1..], sep) == Some(i) && Find(s, sep) == Some(i + 1)
    ensures Split(s, sep) == PrependToFirst(s[0], Split(s[1..], sep))
  {
    var t := s[1..];
    SplitFound(t, sep, i);
    SplitFound(s, sep, i + 1);
    assert t[i + |sep|..] == s[i + 1 + |sep|..];
    var rest := Split(s[i + 1 + |sep|..], sep);
    assert s[..i + 1] == [s[0]] + t[..i];
    assert PrependToFirst(s[0], [t[..i]] + rest) == [[s[0]] + t[..i]] + rest;
  }

  /** `replace` agrees with `rep.join(s.split(pat))`: cutting at the leftmost
      non-overlapping occurrences and gluing the pieces with the replacement. */
  lemma {:induction false} ReplaceIsSplitJoin(s: string, pat: string, rep: string)
    requires |pat| > 0
    ensures Replace(s, pat, rep) == Join(Split(s, pat), rep)
    decreases |s|
  {
    if |s| < |pat| {
      assert Find(s, pat).None?;
    } else if s[..|pat|] == pat {
      SplitAtStart(s, pat);
      ReplaceIsSplitJoin(s[|pat|..], pat, rep);
      var rest := Split(s[|pat|..], pat);
      assert ([""] + rest)[1..] == rest;
    } else {
      SplitAfterFirst(s, pat);
      ReplaceIsSplitJoin(s[1..], pat, rep);
      JoinPrepend(s[0], Split(s[1..], pat), rep);
    }
  }

  /** Replacing one character by another maps the string character by character. */
  lemma {:induction false} ReplaceChar(s: string, a: char, b: char)
    ensures |Replace(s, [a], [b])| == |s|
    ensures forall k :: 0 <= k < |s| ==> Replace(s, [a], [b])[k] == if s[k] == a then b else s[k]
    decreases |s|
  {
    if |s| > 0 {
      ReplaceChar(s[1..], a, b);
    }
  }

  /** A replacement longer than the pattern lengthens every string it applies to. */
  lemma {:induction false} ReplaceLengthens(s: string, pat: string, rep: string)
    requires 0 < |pat| < |rep|
    ensures |Replace(s, pat, rep)| >= |s|
    ensures Contains(s, pat) ==> |Replace(s, pat, rep)| > |s|
    decreases |s|
  {
    if |s| >= |pat| {
      if s[..|pat|] == pat {
        ReplaceLengthens(s[|pat|..], pat, rep);
      } else {
        ReplaceLengthens(s[1..], pat, rep);
        OccursShift(s, pat);
        assert s[0..|pat|] == s[..|pat|];
        assert Contains(s, pat) ==> Contains(s[1..], pat) by {
          if Contains(s, pat) {
            var j: nat :| OccursAt(s, pat, j);
            assert j != 0;
            assert OccursAt(s[1..], pat, j - 1);
          }
        }
      }
    }
  }

  /** `s` holds no space character. */
  predicate NoSpace(s: string) {
    forall k :: 0 <= k < |s| ==> s[k] != ' '
  }

  /** An occurrence of a space-free pattern covers no space. */
  lemma {:induction false} OccurrenceAvoidsSpace(s: string, pat: string, j: nat, k: nat)
    requires NoSpace(pat) && OccursAt(s, pat, j)
    requires j <= k < j + |pat|
    ensures s[k] != ' '
  {
    assert pat[k - j] == s[j..j + |pat|][k - j];
  }

  /** A space-free pattern longer than the words on both sides of a space does not
      occur in `x + " " + y`. */
  lemma {:induction false} AbsentAroundSpace(x: string, y: string, pat: string)
    requires NoSpace(pat) && |x| < |pat| && |y| < |pat|
    ensures !Contains(x + " " + y, pat)
  {
    var s := x + " " + y;
    forall j: nat | OccursAt(s, pat, j) ensures false {
      OccurrenceAvoidsSpace(s, pat, j, |x|);
    }
  }

  /** When `pat` does not occur starting inside `x`, replacing in `x + t` leaves `x` alone. */
  lemma {:induction false} ReplaceSkip(x: string, t: string, pat: string, rep: string)
    requires |pat| > 0
    requires forall j: nat :: j < |x| ==> !OccursAt(x + t, pat, j)
    ensures Replace(x + t, pat, rep) == x + Replace(t, pat, rep)
    decreases |x|
  {
    var s := x + t;
    if |x| == 0 {
      assert s == t;
    } else if |s| < |pat| {
      assert Replace(t, pat, rep) == t;
    } else {
      assert !OccursAt(s, pat, 0);
      var rest := x[1..] + t;
      ReplacePastFirst(x, t, pat, rep);
      NoOccurrenceAfterFirst(x, t, pat);
      ReplaceSkip(x[1..], t, pat, rep);
      ConsAssoc(x, Replace(t, pat, rep));
    }
  }

  /** Without a match at the front, `replace` keeps the first character. */
  lemma {:induction false} ReplacePastFirst(x: string, t: string, pat: string, rep: string)
    requires |pat| > 0 && |x| > 0 && |x + t| >= |pat| && !OccursAt(x + t, pat, 0)
    ensures Replace(x + t, pat, rep) == [x[0]] + Replace(x[1..] + t, pat, rep)
  {
    var s := x + t;
    assert s[0..|pat|] == s[..|pat|];
    assert s[1..] == x[1..] + t;
  }

  lemma {:induction false} ConsAssoc(x: string, r: string)
    requires |x| > 0
    ensures [x[0]] + (x[1..] + r) == x + r
  {
  }

  /** Dropping the first character of `x` keeps `pat` from starting inside it. */
  lemma {:induction false} NoOccurrenceAfterFirst(x: string, t: string, pat: string)
    requires |x| > 0
    requires forall j: nat :: j < |x| ==> !OccursAt(x + t, pat, j)
    ensures forall j: nat :: j < |x| - 1 ==> !OccursAt(x[1..] + t, pat, j)
  {
    var s, rest := x + t, x[1..] + t;
    forall j: nat | j < |x| - 1 ensures !OccursAt(rest, pat, j) {
      assert !OccursAt(s, pat, j + 1);
      if j + |pat| <= |rest| {
        assert rest[j..j + |pat|] == s[j + 1..j + 1 + |pat|];
      }
    }
  }

  /** Replacing a string in itself gives the replacement. */
  lemma {:induction false} ReplaceWhole(pat: string, rep: string)
    requires |pat| > 0
    ensures Replace(pat, pat, rep) == rep
  {
    assert pat[..|pat|] == pat;
    assert pat[|pat|..] == "";
  }

  /** A string that starts with `pat` has its head replaced. */
  lemma {:induction false} ReplaceHead(pat: string, t: string, rep: string)
    requires |pat| > 0
    ensures Replace(pat + t, pat, rep) == rep + Replace(t, pat, rep)
  {
    assert (pat + t)[..|pat|] == pat;
    assert (pat + t)[|pat|..] == t;
  }

  // ------------------------------------------------------------------ split

  /** No piece of a split holds the separator. */
  lemma {:induction false} SplitPiecesFree(s: string, sep: string)
    requires |sep| > 0
    ensures forall k :: 0 <= k < |Split(s, sep)| ==> !Contains(Split(s, sep)[k], sep)
    decreases |s|
  {
    FindFirst(s, sep);
    FindAbsent(s, sep);
    match Find(s, sep)
    case None =>
    case Some(i) =>
      SplitPiecesFree(s[i + |sep|..], sep);
      assert !Contains(s[..i], sep) by {
        forall j: nat | OccursAt(s[..i], sep, j) ensures false {
          OccursInPrefix(s, sep, i, j);
        }
      }
  }

  /** The first piece of `s.split(sep)` is `s` cut before the first occurrence of `sep`. */
  lemma {:induction false} SplitHead(s: string, sep: string)
    requires |sep| > 0
    ensures var h := Split(s, sep)[0];
      StartsWith(s, h) && !Contains(h, sep) && (|h| < |s| ==> OccursAt(s, sep, |h|))
  {
    FindOccurs(s, sep);
    SplitPiecesFree(s, sep);
  }

  /** Where the last piece of the left-to-right, non-overlapping split on `sep`
      starts: 0 when `sep` does not occur, otherwise past the first occurrence and
      then as in the rest. With overlapping occurrences this is not always the end
      of the last occurrence. */
  function LastStart(s: string, sep: string): (n: nat)
    requires |sep| > 0
    ensures n <= |s|
    decreases |s|
  {
    match Find(s, sep)
    case None => 0
    case Some(i) => i + |sep| + LastStart(s[i + |sep|..], sep)
  }

  /** The text after the last occurrence of `sep` that the left-to-right split
      cuts at; `SplitLast` shows it is the last piece of `s.split(sep)`. */
  function LastPiece(s: string, sep: string): string
    requires |sep| > 0
  {
    s[LastStart(s, sep)..]
  }

  /** One unfolding of `Split` at the first occurrence. */
  lemma {:induction false} SplitFound(s: string, sep: string, i: nat)
    requires |sep| > 0 && Find(s, sep) == Some(i)
    ensures i + |sep| <= |s| && Split(s, sep) == [s[..i]] + Split(s[i + |sep|..], sep)
  {
  }

  lemma {:induction false} LastOfCons<T>(x: T, t: seq<T>)
    requires |t| > 0
    ensures ([x] + t)[|t|] == t[|t| - 1]
  {
  }

  /** `LastPiece` is the last element of the split. */
  lemma {:induction false} LastPieceOfSplit(s: string, sep: string)
    requires |sep| > 0
    ensures var parts := Split(s, sep); parts[|parts| - 1] == LastPiece(s, sep)
    decreases |s|
  {
    match Find(s, sep)
    case None =>
      assert Split(s, sep) == [s];
      assert s[0..] == s;
    case Some(i) =>
      var rest := s[i + |sep|..];
      SplitFound(s, sep, i);
      LastOfCons(s[..i], Split(rest, sep));
      LastPieceOfSplit(rest, sep);
      var k := LastStart(rest, sep);
      assert s[i + |sep| + k..] == rest[k..];
  }

  /** When `sep` occurs, it occurs right before the last piece. */
  lemma {:induction false} LastStartAfterSep(s: string, sep: string)
    requires |sep| > 0 && Find(s, sep).Some?
    ensures LastStart(s, sep) >= |sep| && OccursAt(s, sep, LastStart(s, sep) - |sep|)
    decreases |s|
  {
    var i := Find(s, sep).value;
    FindOccurs(s, sep);
    var rest := s[i + |sep|..];
    var n := LastStart(s, sep);
    assert n == i + |sep| + LastStart(rest, sep);
    if Find(rest, sep).Some? {
      LastStartAfterSep(rest, sep);
      var j := LastStart(rest, sep) - |sep|;
      OccursInSuffix(s, sep, i + |sep|, j);
      assert n - |sep| == i + |sep| + j;
    } else {
      assert n - |sep| == i;
    }
  }

  /** The last piece of `s.split(sep)` is a suffix of `s` without `sep`, and when
      `sep` occurs in `s` an occurrence of `sep` ends right where the piece starts. */
  lemma {:induction false} SplitLast(s: string, sep: string)
    requires |sep| > 0
    ensures var parts := Split(s, sep); parts[|parts| - 1] == LastPiece(s, sep)
    ensures var t := LastPiece(s, sep);
      && |t| <= |s| && s[|s| - |t|..] == t && !Contains(t, sep)
      && (Contains(s, sep) ==> |t| + |sep| <= |s| && OccursAt(s, sep, |s| - |t| - |sep|))
  {
    LastPieceOfSplit(s, sep);
    FindAbsent(s, sep);
    SplitPiecesFree(s, sep);
    if Find(s, sep).Some? {
      LastStartAfterSep(s, sep);
    }
  }

  /** Joining the pieces of a split with the separator restores the string. */
  lemma {:induction false} SplitJoinRoundTrip(s: string, sep: string)
    requires |sep| > 0
    ensures Join(Split(s, sep), sep) == s
    decreases |s|
  {
    FindOccurs(s, sep);
    match Find(s, sep)
    case None =>
    case Some(i) =>
      var rest := Split(s[i + |sep|..], sep);
      SplitJoinRoundTrip(s[i + |sep|..], sep);
      assert ([s[..i]] + rest)[1..] == rest;
      assert s[i..i + |sep|] == sep;
      assert s == s[..i] + s[i..i + |sep|] + s[i + |sep|..];
  }

  // ------------------------------------------------------------ split/join words

  lemma {:induction false} SplitWhitespaceWords(s: string)
    ensures forall k :: 0 <= k < |SplitWhitespace(s)| ==> IsWord(SplitWhitespace(s)[k])
    decreases |s|
  {
    if |s| > 0 {
      if IsSpace(s[0]) {
        SplitWhitespaceWords(s[1..]);
      } else {
        SplitWhitespaceWords(s[WordLength(s)..]);
      }
    }
  }

  /** Splitting a line of words joined by single spaces gives the words back. */
  lemma {:induction false} SplitJoinWords(ws: seq<string>)
    requires forall k :: 0 <= k < |ws| ==> IsWord(ws[k])
    ensures SplitWhitespace(Join(ws, " ")) == ws
    decreases |ws|
  {
    if |ws| == 0 {
    } else if |ws| == 1 {
      WordsAlone(ws[0], "");
      assert ws[0] + "" == ws[0];
    } else {
      var w, j := ws[0], Join(ws[1..], " ");
      SplitJoinWords(ws[1..]);
      var line := w + " " + j;
      WordsAlone(w, " " + j);
      assert w + " " + j == w + (" " + j);
      assert (" " + j)[1..] == j;
    }
  }

  /** A word followed by whitespace or nothing is split off as one word. */
  lemma {:induction false} WordsAlone(w: string, tail: string)
    requires IsWord(w)
    requires |tail| == 0 || IsSpace(tail[0])
    ensures SplitWhitespace(w + tail) == [w] + SplitWhitespace(tail)
  {
    var line := w + tail;
    assert forall k :: 0 <= k < |w| ==> line[k] == w[k];
    assert |tail| > 0 ==> line[|w|] == tail[0];
    assert WordLength(line) == |w|;
    assert line[..|w|] == w;
    assert line[|w|..] == tail;
  }

  /** A line of words joined by single spaces: empty exactly when there are no words,
      no whitespace at either end, and every whitespace character is a single space
      followed by a word character. */
  lemma {:induction false} JoinWordsLayout(ws: seq<string>)
    requires forall i :: 0 <= i < |ws| ==> IsWord(ws[i])
    ensures var t := Join(ws, " ");
      && (|t| == 0 <==> |ws| == 0)
      && (|t| > 0 ==> !IsSpace(t[0]) && !IsSpace(t[|t| - 1]))
      && forall k :: 0 <= k < |t| && IsSpace(t[k]) ==> t[k] == ' ' && k + 1 < |t| && !IsSpace(t[k + 1])
    decreases |ws|
  {
    if |ws| > 1 {
      var w, j := ws[0], Join(ws[1..], " ");
      JoinWordsLayout(ws[1..]);
      var t := w + " " + j;
      assert Join(ws, " ") == t;
      assert forall k :: 0 <= k < |w| ==> t[k] == w[k];
      forall k | 0 <= k < |t| && IsSpace(t[k]) ensures t[k] == ' ' && k + 1 < |t| && !IsSpace(t[k + 1]) {
        if k > |w| {
          assert t[k] == j[k - |w| - 1];
          assert t[k + 1] == j[k - |w|];
        } else {
          assert t[k + 1] == j[0];
        }
      }
      assert t[|t| - 1] == j[|j| - 1];
    }
  }

  /** A character other than the space that no word holds is not in the joined line. */
  lemma {:induction false} JoinAvoids(ws: seq<string>, c: char)
    requires c != ' '
    requires forall i, k :: 0 <= i < |ws| && 0 <= k < |ws[i]| ==> ws[i][k] != c
    ensures forall k :: 0 <= k < |Join(ws, " ")| ==> Join(ws, " ")[k] != c
    decreases |ws|
  {
    if |ws| > 1 {
      var w, j := ws[0], Join(ws[1..], " ");
      JoinAvoids(ws[1..], c);
      var t := w + " " + j;
      assert Join(ws, " ") == t;
      forall k | 0 <= k < |t| ensures t[k] != c {
        if k < |w| {
          assert t[k] == w[k];
        } else if k > |w| {
          assert t[k] == j[k - |w| - 1];
        }
      }
    }
  }

  /** A one-character pattern occurs exactly where that character is. */
  lemma {:induction false} ContainsChar(s: string, c: char)
    ensures Contains(s, [c]) <==> exists k :: 0 <= k < |s| && s[k] == c
  {
    if Contains(s, [c]) {
      var i: nat :| i <= |s| && OccursAt(s, [c], i);
      assert s[i..i + 1][0] == s[i];
    }
    if exists k :: 0 <= k < |s| && s[k] == c {
      var k :| 0 <= k < |s| && s[k] == c;
      assert s[k..k + 1] == [c];
      assert OccursAt(s, [c], k);
    }
  }

  /** A prefix of a string without `pat` holds no `pat` either. */
  lemma {:induction false} PrefixAvoids(s: string, pat: string, n: nat)
    requires n <= |s| && !Contains(s, pat)
    ensures !Contains(s[..n], pat)
  {
    forall i: nat | i <= n && OccursAt(s[..n], pat, i) ensures false {
      OccursInPrefix(s, pat, n, i);
    }
  }

  // ------------------------------------------------------------- capitalize

  /** `capitalize()` changes letters only: whitespace and hyphens stay where they are. */
  lemma {:induction false} CapitalizeKeepsLayout(w: string)
    ensures |Capitalize(w)| == |w|
    ensures forall k :: 0 <= k < |w| ==> (IsSpace(Capitalize(w)[k]) <==> IsSpace(w[k]))
    ensures forall k :: 0 <= k < |w| ==> (Capitalize(w)[k] == '-' <==> w[k] == '-')
  {
    if |w| > 0 {
      var c := Capitalize(w);
      forall k | 0 <= k < |w|
        ensures IsSpace(c[k]) <==> IsSpace(w[k])
        ensures c[k] == '-' <==> w[k] == '-'
      {
        if k > 0 {
          assert c[k] == Lower(w[k]);
        } else {
          assert c[k] == Upper(w[k]);
        }
      }
    }
  }

  /** Upper-casing an upper-cased character, or lower-casing a lower-cased one, changes nothing. */
  lemma {:induction false} CaseIdempotent(c: char)
    ensures Upper(Upper(c)) == Upper(c) && Lower(Lower(c)) == Lower(c)
  {
  }

  /** Capitalizing twice is capitalizing once. */
  lemma {:induction false} CapitalizeIdempotent(w: string)
    ensures Capitalize(Capitalize(w)) == Capitalize(w)
  {
    if |w| > 0 {
      var c := Capitalize(w);
      var cc := Capitalize(c);
      forall k | 0 <= k < |w| ensures cc[k] == c[k] {
        if k == 0 {
          CaseIdempotent(w[0]);
        } else {
          assert c[k] == Lower(w[k]);
          assert cc[k] == Lower(c[k]);
          CaseIdempotent(w[k]);
        }
      }
    }
  }

}
