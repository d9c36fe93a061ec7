/**
 * Models of the handful of java.lang.String and java.util.regex operations the
 * normalizer and the point codec rely on. Strings are sequences of chars.
 */
module JavaStrings {

  /** `pat` occurs in `s` starting at index `i`. */
  predicate OccursAt(s: string, pat: string, i: int) {
    0 <= i && i + |pat| <= |s| && s[i..i + |pat|] == pat
  }

  /** String.contains */
  predicate Contains(s: string, pat: string) {
    exists i :: 0 <= i <= |s| - |pat| && OccursAt(s, pat, i)
  }

  /** String.startsWith */
  predicate StartsWith(s: string, prefix: string) {
    |prefix| <= |s| && s[..|prefix|] == prefix
  }

  /** String.endsWith */
  predicate EndsWith(s: string, suffix: string) {
    |suffix| <= |s| && s[|s| - |suffix|..] == suffix
  }

  /**
   * String.replace(target, replacement) for a non-empty target: the string is
   * scanned from the left and every occurrence found is replaced; scanning
   * resumes after the replaced occurrence, so occurrences never overlap.
   */
  function ReplaceAll(s: string, pat: string, rep: string): string
    requires |pat| > 0
    decreases |s|
  {
    if |s| < |pat| then s
    else if pat <= s then rep + ReplaceAll(s[|pat|..], pat, rep)
    else [s[0]] + ReplaceAll(s[1..], pat, rep)
  }

  /** Replacing a target that does not occur is the identity. */
  lemma {:induction false} ReplaceAllAbsent(s: string, pat: string, rep: string)
    requires |pat| > 0 && !Contains(s, pat)
    ensures ReplaceAll(s, pat, rep) == s
    decreases |s|
  {
    if |s| >= |pat| {
      assert !OccursAt(s, pat, 0);
      assert !Contains(s[1..], pat) by {
        forall i | 0 <= i <= |s[1..]| - |pat|
          ensures !OccursAt(s[1..], pat, i)
        {
          OccursAtTail(s, pat, i);
        }
      }
      ReplaceAllAbsent(s[1..], pat, rep);
    }
  }

  /** Occurrences in the tail of a string are the occurrences in the string shifted by one. */
  lemma OccursAtTail(s: string, pat: string, j: int)
    requires |s| > 0 && j >= 0
    ensures OccursAt(s[1..], pat, j) <==> OccursAt(s, pat, j + 1)
  {
    if j + |pat| <= |s| - 1 {
      assert s[1..][j..j + |pat|] == s[j + 1..j + 1 + |pat|];
    }
  }

  /** Where the target starts the string, it is replaced and the rest is processed. */
  lemma ReplaceAllAtStart(s: string, pat: string, rep: string)
    requires |pat| > 0 && OccursAt(s, pat, 0)
    ensures ReplaceAll(s, pat, rep) == rep + ReplaceAll(s[|pat|..], pat, rep)
  {
    assert s[..|pat|] == pat;
  }

  /** Where the target does not start the string, its first character is copied. */
  lemma ReplaceAllSkip(s: string, pat: string, rep: string)
    requires |pat| > 0 && |s| > 0 && !OccursAt(s, pat, 0)
    ensures ReplaceAll(s, pat, rep) == [s[0]] + ReplaceAll(s[1..], pat, rep)
  {
  }

  /** A prefix in which no occurrence of the target starts is copied unchanged. */
  lemma {:induction false} ReplaceAllKeepsPrefix(a: string, rest: string, pat: string, rep: string)
    requires |pat| > 0
    requires forall j :: 0 <= j < |a| ==> !OccursAt(a + rest, pat, j)
    ensures ReplaceAll(a + rest, pat, rep) == a + ReplaceAll(rest, pat, rep)
    decreases |a|
  {
    if a == [] {
      assert a + rest == rest;
    } else {
      var s := a + rest;
      assert !OccursAt(s, pat, 0);
      ReplaceAllSkip(s, pat, rep);
      assert s[1..] == a[1..] + rest;
      forall j | 0 <= j < |a| - 1
        ensures !OccursAt(a[1..] + rest, pat, j)
      {
        OccursAtTail(s, pat, j);
      }
      ReplaceAllKeepsPrefix(a[1..], rest, pat, rep);
      assert [a[0]] + a[1..] == a;
    }
  }

  /**
   * The leftmost occurrence is replaced, the text before it is kept as it is,
   * and replacement goes on after the occurrence.
   */
  lemma ReplaceAllLeftmost(a: string, pat: string, rep: string, b: string)
    requires |pat| > 0
    requires forall j :: 0 <= j < |a| ==> !OccursAt(a + pat + b, pat, j)
    ensures ReplaceAll(a + pat + b, pat, rep) == a + rep + ReplaceAll(b, pat, rep)
  {
    assert a + pat + b == a + (pat + b);
    ReplaceAllKeepsPrefix(a, pat + b, pat, rep);
    ReplaceAllAtStart(pat + b, pat, rep);
    assert (pat + b)[|pat|..] == b;
  }

  /** A string with exactly one occurrence of the target has just that occurrence replaced. */
  lemma ReplaceAllOnce(a: string, pat: string, rep: string, b: string)
    requires |pat| > 0
    requires forall j :: OccursAt(a + pat + b, pat, j) ==> j == |a|
    ensures ReplaceAll(a + pat + b, pat, rep) == a + rep + b
  {
    var s := a + pat + b;
    ReplaceAllLeftmost(a, pat, rep, b);
    assert !Contains(b, pat) by {
      forall k | 0 <= k <= |b| - |pat| && OccursAt(b, pat, k)
        ensures OccursAt(s, pat, |a| + |pat| + k)
      {
        assert s[|a| + |pat| + k..|a| + |pat| + k + |pat|] == b[k..k + |pat|];
      }
    }
    ReplaceAllAbsent(b, pat, rep);
  }

  /** String.indexOf(char): the first index holding `c`, or -1. */
  function IndexOf(s: string, c: char): (r: int)
    ensures -1 <= r < |s|
    ensures r >= 0 ==> s[r] == c
    ensures forall j :: 0 <= j < |s| && (r < 0 || j < r) ==> s[j] != c
    decreases |s|
  {
    if s == [] then -1
    else if s[0] == c then 0
    else
      var k := IndexOf(s[1..], c);
      if k < 0 then -1 else k + 1
  }

  /** String.lastIndexOf: the last index holding `c`, or -1. */
  function LastIndexOf(s: string, c: char): (r: int)
    ensures -1 <= r < |s|
    ensures r >= 0 ==> s[r] == c
    ensures forall j :: r < j < |s| ==> s[j] != c
    decreases |s|
  {
    if s == [] then -1
    else if s[|s| - 1] == c then |s| - 1
    else LastIndexOf(s[..|s| - 1], c)
  }

  /** String.trim drops every char up to U+0020 at either end. */
  predicate IsTrimmed(c: char) {
    c <= ' '
  }

  function TrimStart(s: string): (r: string)
    ensures |r| <= |s| && r == s[|s| - |r|..]
    ensures r == [] || !IsTrimmed(r[0])
    ensures forall k :: 0 <= k < |s| - |r| ==> IsTrimmed(s[k])
    decreases |s|
  {
    if s != [] && IsTrimmed(s[0]) then TrimStart(s[1..]) else s
  }

  function TrimEnd(s: string): (r: string)
    ensures |r| <= |s| && r == s[..|r|]
    ensures r == [] || !IsTrimmed(r[|r| - 1])
    ensures forall k :: |r| <= k < |s| ==> IsTrimmed(s[k])
    decreases |s|
  {
    if s != [] && IsTrimmed(s[|s| - 1]) then TrimEnd(s[..|s| - 1]) else s
  }

  /** Every char of `s` is at or below U+0020. */
  predicate AllTrimmed(s: string) {
    forall k :: 0 <= k < |s| ==> IsTrimmed(s[k])
  }

  /** String.trim */
  function Trim(s: string): (r: string)
    ensures r == [] || (!IsTrimmed(r[0]) && !IsTrimmed(r[|r| - 1]))
    ensures s != [] && !IsTrimmed(s[0]) && !IsTrimmed(s[|s| - 1]) ==> r == s
  {
    TrimEnd(TrimStart(s))
  }

  /** A suffix of `s` after trimmed chars, cut before trimmed chars, lies between two trimmed runs. */
  lemma BetweenTrimmedRuns(s: string, inner: string, r: string)
    requires |inner| <= |s| && inner == s[|s| - |inner|..]
    requires forall k :: 0 <= k < |s| - |inner| ==> IsTrimmed(s[k])
    requires |r| <= |inner| && r == inner[..|r|]
    requires forall k :: |r| <= k < |inner| ==> IsTrimmed(inner[k])
    ensures exists a, b :: s == a + r + b && AllTrimmed(a) && AllTrimmed(b)
  {
    var a := s[..|s| - |inner|];
    var b := inner[|r|..];
    assert s == a + inner;
    assert inner == r + b;
    assert s == a + r + b;
    assert AllTrimmed(a) && AllTrimmed(b);
  }

  /**
   * String.trim only strips the ends: the input is the result with chars at or
   * below U+0020 around it.
   */
  lemma TrimKeepsInterior(s: string)
    ensures exists a, b :: s == a + Trim(s) + b && AllTrimmed(a) && AllTrimmed(b)
  {
    BetweenTrimmedRuns(s, TrimStart(s), TrimEnd(TrimStart(s)));
  }

  /** Lower-casing of one char, restricted to ASCII letters. */
  function LowerAscii(c: char): char {
    if 'A' <= c <= 'Z' then (c as int + 32) as char else c
  }

  /** String.toLowerCase(Locale.ROOT), restricted to ASCII letters. */
  function ToLowerAscii(s: string): (r: string)
    ensures |r| == |s| && forall i :: 0 <= i < |s| ==> r[i] == LowerAscii(s[i])
  {
    seq(|s|, i requires 0 <= i < |s| => LowerAscii(s[i]))
  }

  /** A char matched by the regular expression `[\s,]`. */
  predicate IsSplitChar(c: char) {
    c == ' ' || c == '\t' || c == '\n' || c == 11 as char || c == 12 as char || c == '\r' || c == ','
  }

  predicate NoSplitChar(s: string) {
    forall k :: 0 <= k < |s| ==> !IsSplitChar(s[k])
  }

  /** The pieces between the delimiters of `s`, empty ones included: one more than the delimiters. */
  function SplitPieces(s: string): (r: seq<string>)
    ensures |r| >= 1
    ensures forall k :: 0 <= k < |r| ==> NoSplitChar(r[k])
    decreases |s|
  {
    if s == [] then [""]
    else
      var rest := SplitPieces(s[1..]);
      if IsSplitChar(s[0]) then [""] + rest
      else [[s[0]] + rest[0]] + rest[1..]
  }

  function DropTrailingEmpty(pieces: seq<string>): (r: seq<string>)
    ensures |r| <= |pieces| && r == pieces[..|r|]
    ensures r == [] || r[|r| - 1] != ""
    decreases |pieces|
  {
    if pieces == [] then []
    else if pieces[|pieces| - 1] == "" then DropTrailingEmpty(pieces[..|pieces| - 1])
    else pieces
  }

  /**
   * String.split("[\\s,]"): a string without a delimiter is returned whole;
   * otherwise every piece is kept except the empty ones at the end.
   */
  function Split(s: string): seq<string> {
    if NoSplitChar(s) then [s] else DropTrailingEmpty(SplitPieces(s))
  }

  lemma {:induction false} SplitPiecesWhole(a: string)
    requires NoSplitChar(a)
    ensures SplitPieces(a) == [a]
    decreases |a|
  {
    if a != [] {
      SplitPiecesWhole(a[1..]);
      assert [a[0]] + a[1..] == a;
    }
  }

  /** Text without a delimiter in front of `t` joins the first piece of `t`. */
  lemma {:induction false} SplitPiecesPrefix(a: string, t: string)
    requires NoSplitChar(a)
    ensures SplitPieces(a + t) == [a + SplitPieces(t)[0]] + SplitPieces(t)[1..]
    decreases |a|
  {
    if a != [] {
      var s := a + t;
      assert s[0] == a[0] && !IsSplitChar(s[0]);
      assert s[1..] == a[1..] + t;
      SplitPiecesPrefix(a[1..], t);
      var rest := SplitPieces(s[1..]);
      assert rest == [a[1..] + SplitPieces(t)[0]] + SplitPieces(t)[1..];
      assert rest[0] == a[1..] + SplitPieces(t)[0];
      assert rest[1..] == SplitPieces(t)[1..];
      assert SplitPieces(s) == [[s[0]] + rest[0]] + rest[1..];
      assert a == [a[0]] + a[1..];
      assert [a[0]] + (a[1..] + SplitPieces(t)[0]) == a + SplitPieces(t)[0];
    } else {
      assert a + t == t && a + SplitPieces(t)[0] == SplitPieces(t)[0];
    }
  }

  /** Two delimiter-free pieces around one delimiter split into exactly those two pieces. */
  lemma SplitTwo(a: string, d: char, b: string)
    requires NoSplitChar(a) && NoSplitChar(b) && IsSplitChar(d) && b != ""
    ensures Split(a + [d] + b) == [a, b]
  {
    var s := a + [d] + b;
    assert s[|a|] == d;
    assert !NoSplitChar(s);
    var t := [d] + b;
    assert s == a + t;
    SplitPiecesPrefix(a, t);
    assert t[0] == d && t[1..] == b;
    SplitPiecesWhole(b);
    assert SplitPieces(t) == [""] + SplitPieces(b);
    assert SplitPieces(t) == ["", b];
    assert a + "" == a;
    assert SplitPieces(s) == [a, b];
  }

  /** A delimiter-free piece followed by a delimiter splits off as one piece. */
  lemma SplitPiecesCons(a: string, d: char, t: string)
    requires NoSplitChar(a) && IsSplitChar(d)
    ensures SplitPieces(a + [d] + t) == [a] + SplitPieces(t)
  {
    var u := [d] + t;
    assert a + [d] + t == a + u;
    SplitPiecesPrefix(a, u);
    assert u[0] == d && u[1..] == t;
    assert SplitPieces(u) == [""] + SplitPieces(t);
    assert a + "" == a;
  }

  /** Three delimiter-free pieces around two delimiters split into those three pieces. */
  lemma SplitThree(a: string, d: char, b: string, e: char, c: string)
    requires NoSplitChar(a) && NoSplitChar(b) && NoSplitChar(c) && IsSplitChar(d) && IsSplitChar(e) && c != ""
    ensures Split(a + [d] + b + [e] + c) == [a, b, c]
  {
    var s := a + [d] + b + [e] + c;
    assert s[|a|] == d;
    assert !NoSplitChar(s);
    assert s == a + [d] + (b + [e] + c);
    SplitPiecesCons(a, d, b + [e] + c);
    SplitPiecesCons(b, e, c);
    SplitPiecesWhole(c);
    assert SplitPieces(s) == [a, b, c];
  }
}
