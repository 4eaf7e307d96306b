/**
 The string operations of Python's `str` that the attendee and booklet tools rely on, over
 `string` (a sequence of characters). Case mapping and whitespace are ASCII-only.
 */
module Text {

  import opened Wrappers

  /** `c.lower()` for ASCII letters; every other character is its own lower case. */
  function LowerChar(c: char): char {
    if 'A' <= c <= 'Z' then (c as int + 32) as char else c
  }

  /** `s.lower()`, character by character. */
  function Lower(s: string): (r: string)
    ensures |r| == |s|
    ensures forall i :: 0 <= i < |s| ==> r[i] == LowerChar(s[i])
  {
    seq(|s|, i requires 0 <= i < |s| => LowerChar(s[i]))
  }

  /** `c.upper()` for ASCII letters; every other character is its own upper case. */
  function UpperChar(c: char): char {
    if 'a' <= c <= 'z' then (c as int - 32) as char else c
  }

  /** A character with an upper and a lower case: an ASCII letter. */
  predicate IsCased(c: char) {
    'a' <= c <= 'z' || 'A' <= c <= 'Z'
  }

  /** `s.title()` continued after a character that was (`afterCased`) or was not cased. */
  function TitleFrom(s: string, afterCased: bool): (r: string)
    ensures |r| == |s|
    ensures |s| > 0 ==> r[0] == if afterCased then LowerChar(s[0]) else UpperChar(s[0])
    ensures forall i :: 0 < i < |s| ==> r[i] == if IsCased(s[i - 1]) then LowerChar(s[i]) else UpperChar(s[i])
  {
    if |s| == 0 then []
    else [if afterCased then LowerChar(s[0]) else UpperChar(s[0])] + TitleFrom(s[1..], IsCased(s[0]))
  }

  /**
   `s.title()`: every letter that follows a letter is lower-cased, every other letter (one
   that starts a word) upper-cased.
   */
  function Title(s: string): (r: string)
    ensures |r| == |s|
    ensures forall i :: 0 <= i < |s| ==>
              r[i] == if i > 0 && IsCased(s[i - 1]) then LowerChar(s[i]) else UpperChar(s[i])
  {
    TitleFrom(s, false)
  }

  /** Case mapping keeps letters letters and forgets the previous case. */
  lemma CaseMapping(c: char)
    ensures IsCased(UpperChar(c)) == IsCased(c) && IsCased(LowerChar(c)) == IsCased(c)
    ensures LowerChar(UpperChar(c)) == LowerChar(c) && UpperChar(LowerChar(c)) == UpperChar(c)
    ensures LowerChar(LowerChar(c)) == LowerChar(c) && UpperChar(UpperChar(c)) == UpperChar(c)
  {
  }

  /** Title-casing changes only the case of letters, and doing it twice changes nothing more. */
  lemma TitleKeepsLetters(s: string)
    ensures Lower(Title(s)) == Lower(s)
    ensures Title(Title(s)) == Title(s)
  {
    var t := Title(s);
    forall i | 0 <= i < |s| ensures IsCased(t[i]) == IsCased(s[i]) && LowerChar(t[i]) == LowerChar(s[i]) {
      CaseMapping(s[i]);
      assert t[i] == if i > 0 && IsCased(s[i - 1]) then LowerChar(s[i]) else UpperChar(s[i]);
    }
    forall i | 0 <= i < |s| ensures Title(t)[i] == t[i] {
      CaseMapping(s[i]);
      if i > 0 {
        assert IsCased(t[i - 1]) == IsCased(s[i - 1]);
      }
    }
  }

  /** The ASCII characters `str.split()` separates on: space, \t, \n, \v, \f, \r and \x1c..\x1f. */
  predicate IsSpace(c: char) {
    c == ' ' || '\t' <= c <= '\r' || '\U{1c}' <= c <= '\U{1f}'
  }

  predicate AllSpace(s: string) {
    forall i :: 0 <= i < |s| ==> IsSpace(s[i])
  }

  predicate NoSpace(s: string) {
    forall i :: 0 <= i < |s| ==> !IsSpace(s[i])
  }

  /** `p` occurs in `s` starting at index `i`. */
  predicate OccursAt(s: string, p: string, i: nat) {
    i + |p| <= |s| && s[i..i + |p|] == p
  }

  /** `p in s`: `p` is a substring of `s`. */
  predicate Contains(s: string, p: string) {
    exists i: nat :: i <= |s| && OccursAt(s, p, i)
  }

  lemma OccursInside(a: string, p: string, b: string)
    ensures OccursAt(a + p + b, p, |a|)
  {
    assert (a + p + b)[|a|..|a| + |p|] == p;
  }

  /** `a + p + b` contains `p`. */
  lemma ContainsInside(a: string, p: string, b: string)
    ensures Contains(a + p + b, p)
  {
    OccursInside(a, p, b);
  }

  /**
   `s.replace(p, rep)`: scanning left to right, every non-overlapping occurrence of `p` is
   replaced by `rep`.
   */
  function ReplaceAll(s: string, p: string, rep: string): (r: string)
    requires |p| > 0
    ensures |rep| <= |p| ==> |r| <= |s|
  {
    if |s| < |p| then s
    else if s[..|p|] == p then rep + ReplaceAll(s[|p|..], p, rep)
    else [s[0]] + ReplaceAll(s[1..], p, rep)
  }

  /** A string in which `p` does not occur is left as it is. */
  lemma {:induction false} ReplaceAbsent(s: string, p: string, rep: string)
    requires |p| > 0
    requires !Contains(s, p)
    ensures ReplaceAll(s, p, rep) == s
  {
    if |s| >= |p| {
      assert !OccursAt(s, p, 0);
      forall i: nat ensures !OccursAt(s[1..], p, i) {
        if OccursAt(s[1..], p, i) {
          assert s[i + 1..i + 1 + |p|] == s[1..][i..i + |p|];
          assert OccursAt(s, p, i + 1);
        }
      }
      ReplaceAbsent(s[1..], p, rep);
    }
  }

  /** A leading occurrence of `p` is the first thing replaced. */
  lemma ReplaceLeading(p: string, s: string, rep: string)
    requires |p| > 0
    ensures ReplaceAll(p + s, p, rep) == rep + ReplaceAll(s, p, rep)
  {
    assert (p + s)[..|p|] == p;
    assert (p + s)[|p|..] == s;
  }

  /** `s.lstrip(c)`: every leading `c` removed. */
  function StripStart(s: string, c: char): (r: string)
    ensures |r| <= |s| && r == s[|s| - |r|..]
    ensures r == [] || r[0] != c
    ensures forall k :: 0 <= k < |s| - |r| ==> s[k] == c
  {
    if |s| > 0 && s[0] == c then StripStart(s[1..], c) else s
  }

  /** `s.rstrip(c)`: every trailing `c` removed. */
  function StripEnd(s: string, c: char): (r: string)
    ensures |r| <= |s| && r == s[..|r|]
    ensures r == [] || r[|r| - 1] != c
    ensures forall k :: |r| <= k < |s| ==> s[k] == c
  {
    if |s| > 0 && s[|s| - 1] == c then StripEnd(s[..|s| - 1], c) else s
  }

  /**
   `s.strip(c)`: `s` is `r` surrounded by runs of `c`, and `r` neither starts nor ends
   with `c`.
   */
  function Strip(s: string, c: char): (r: string)
    ensures r == [] || (r[0] != c && r[|r| - 1] != c)
    ensures exists i: nat :: OccursAt(s, r, i)
                        && (forall k :: 0 <= k < i ==> s[k] == c)
                        && (forall k :: i + |r| <= k < |s| ==> s[k] == c)
  {
    var t := StripStart(s, c);
    var r := StripEnd(t, c);
    StripFrame(s, c, t, r);
    r
  }

  /**
   The pieces of Strip: when `t` is `s` without a leading run of `c` and `r` is `t` without a
   trailing run, `r` sits in `s` between the two runs.
   */
  lemma StripFrame(s: string, c: char, t: string, r: string)
    requires |t| <= |s| && t == s[|s| - |t|..] && forall k :: 0 <= k < |s| - |t| ==> s[k] == c
    requires |r| <= |t| && r == t[..|r|] && forall k :: |r| <= k < |t| ==> t[k] == c
    ensures OccursAt(s, r, |s| - |t|)
    ensures forall k :: 0 <= k < |s| - |t| ==> s[k] == c
    ensures forall k :: |s| - |t| + |r| <= k < |s| ==> s[k] == c
  {
    var i := |s| - |t|;
    assert s[i..i + |r|] == s[i..][..|r|];
    forall k | i + |r| <= k < |s| ensures s[k] == c {
      assert s[k] == s[i..][k - i];
    }
  }

  /** Where the last space of `s` is, if there is one. */
  function LastSpace(s: string): (r: Option<nat>)
    ensures r.None? ==> forall k :: 0 <= k < |s| ==> s[k] != ' '
    ensures r.Some? ==> r.value < |s| && s[r.value] == ' ' && forall k :: r.value < k < |s| ==> s[k] != ' '
  {
    if |s| == 0 then None
    else if s[|s| - 1] == ' ' then Some(|s| - 1)
    else LastSpace(s[..|s| - 1])
  }

  /**
   `s.rsplit(' ', 1)[0]`: the part of `s` before its last space, or all of `s` when it has
   no space.
   */
  function BeforeLastSpace(s: string): (r: string)
    ensures |r| <= |s| && r == s[..|r|]
    ensures (forall k :: 0 <= k < |s| ==> s[k] != ' ') ==> r == s
    ensures (exists k :: 0 <= k < |s| && s[k] == ' ') ==>
              |r| < |s| && s[|r|] == ' ' && forall k :: |r| < k < |s| ==> s[k] != ' '
  {
    match LastSpace(s)
    case None => s
    case Some(i) => s[..i]
  }

  /** `sep.join(parts)`. */
  function Join(parts: seq<string>, sep: string): string {
    if |parts| == 0 then ""
    else if |parts| == 1 then parts[0]
    else parts[0] + sep + Join(parts[1..], sep)
  }

  /** `s.split(c)`: the pieces of `s` between occurrences of `c`; never empty. */
  function SplitOn(s: string, c: char): (r: seq<string>)
    ensures |r| >= 1
  {
    if |s| == 0 then [""]
    else
      var rest := SplitOn(s[1..], c);
      if s[0] == c then [""] + rest else [[s[0]] + rest[0]] + rest[1..]
  }

  /** A piece without `c` is not split. */
  lemma {:induction false} SplitOnNone(p: string, c: char)
    requires c !in p
    ensures SplitOn(p, c) == [p]
  {
    if |p| > 0 {
      assert c !in p[1..];
      SplitOnNone(p[1..], c);
      assert [p[0]] + p[1..] == p;
    }
  }

  /** Splitting at the first `c` yields the piece before it followed by the split of the rest. */
  lemma {:induction false} SplitOnFirst(p: string, c: char, s: string)
    requires c !in p
    ensures SplitOn(p + [c] + s, c) == [p] + SplitOn(s, c)
  {
    if |p| == 0 {
      assert p + [c] + s == [c] + s;
      assert ([c] + s)[1..] == s;
    } else {
      assert (p + [c] + s)[1..] == p[1..] + [c] + s;
      assert c !in p[1..];
      SplitOnFirst(p[1..], c, s);
      assert [p[0]] + p[1..] == p;
    }
  }

  /** Joining with `c` and splitting on `c` gives the pieces back, when no piece holds `c`. */
  lemma {:induction false} SplitJoin(parts: seq<string>, c: char)
    requires |parts| >= 1
    requires forall i :: 0 <= i < |parts| ==> c !in parts[i]
    ensures SplitOn(Join(parts, [c]), c) == parts
  {
    if |parts| == 1 {
      SplitOnNone(parts[0], c);
    } else {
      SplitJoin(parts[1..], c);
      SplitOnFirst(parts[0], c, Join(parts[1..], [c]));
      assert [parts[0]] + parts[1..] == parts;
    }
  }

  /** An occurrence stays an occurrence when something is put in front. */
  lemma OccursShift(a: string, s: string, p: string, j: nat)
    requires OccursAt(s, p, j)
    ensures OccursAt(a + s, p, |a| + j)
  {
    assert (a + s)[|a| + j..|a| + j + |p|] == s[j..j + |p|];
  }

  /** Where piece i starts in the joined string: after every earlier piece and its separator. */
  function PieceStart(parts: seq<string>, sep: string, i: nat): nat
    requires i <= |parts|
  {
    if i == 0 then 0 else |parts[0]| + |sep| + PieceStart(parts[1..], sep, i - 1)
  }

  /**
   Piece i of a join sits at its start offset and, unless it is the last, is followed by the
   separator; the last piece ends the joined string.
   */
  lemma {:induction false} JoinPlacesParts(parts: seq<string>, sep: string, i: nat)
    requires i < |parts|
    ensures OccursAt(Join(parts, sep), parts[i], PieceStart(parts, sep, i))
    ensures i + 1 < |parts| ==> OccursAt(Join(parts, sep), sep, PieceStart(parts, sep, i) + |parts[i]|)
    ensures i + 1 == |parts| ==> |Join(parts, sep)| == PieceStart(parts, sep, i) + |parts[i]|
  {
    if |parts| == 1 {
      assert Join(parts, sep) == parts[0];
      assert Join(parts, sep)[0..|parts[0]|] == parts[0];
    } else {
      var rest := Join(parts[1..], sep);
      assert Join(parts, sep) == parts[0] + sep + rest;
      if i == 0 {
        OccursInside([], parts[0], sep + rest);
        assert [] + parts[0] + (sep + rest) == parts[0] + sep + rest;
        OccursInside(parts[0], sep, rest);
      } else {
        JoinPlacesParts(parts[1..], sep, i - 1);
        OccursShift(parts[0] + sep, rest, parts[i], PieceStart(parts[1..], sep, i - 1));
        if i + 1 < |parts| {
          OccursShift(parts[0] + sep, rest, sep, PieceStart(parts[1..], sep, i - 1) + |parts[i]|);
        }
      }
    }
  }

  /** In a join by a one-character separator, that character follows every piece but the last. */
  lemma {:induction false} JoinSeparatorAfter(parts: seq<string>, sep: string, i: nat)
    requires |sep| == 1 && i + 1 < |parts|
    ensures PieceStart(parts, sep, i) + |parts[i]| < |Join(parts, sep)|
    ensures Join(parts, sep)[PieceStart(parts, sep, i) + |parts[i]|] == sep[0]
  {
    JoinPlacesParts(parts, sep, i);
    var at := PieceStart(parts, sep, i) + |parts[i]|;
    assert Join(parts, sep)[at..at + 1] == sep;
  }

  /** Every piece appears in the joined string. */
  lemma {:induction false} JoinContainsParts(parts: seq<string>, sep: string, i: nat)
    requires i < |parts|
    ensures Contains(Join(parts, sep), parts[i])
  {
    if |parts| == 1 {
      OccursInside([], parts[0], []);
      assert [] + parts[0] + [] == parts[0];
    } else if i == 0 {
      OccursInside([], parts[0], sep + Join(parts[1..], sep));
      assert [] + parts[0] + (sep + Join(parts[1..], sep)) == Join(parts, sep);
    } else {
      var rest := Join(parts[1..], sep);
      JoinContainsParts(parts[1..], sep, i - 1);
      var j: nat :| j <= |rest| && OccursAt(rest, parts[i], j);
      OccursShift(parts[0] + sep, rest, parts[i], j);
    }
  }

  /** `s` with its trailing whitespace removed. */
  function TrimEnd(s: string): (r: string)
    ensures |r| <= |s| && r == s[..|r|]
    ensures r == [] || !IsSpace(r[|r| - 1])
    ensures AllSpace(s[|r|..])
  {
    if |s| > 0 && IsSpace(s[|s| - 1]) then TrimEnd(s[..|s| - 1]) else s
  }

  /** The longest suffix of `s` without whitespace. */
  function TrailingWord(s: string): (r: string)
    ensures |r| <= |s| && r == s[|s| - |r|..]
    ensures NoSpace(r)
    ensures |r| < |s| ==> IsSpace(s[|s| - |r| - 1])
  {
    if |s| > 0 && !IsSpace(s[|s| - 1]) then TrailingWord(s[..|s| - 1]) + [s[|s| - 1]] else []
  }

  /**
   `s.split()[-1]`: the last whitespace-separated token of `s`, or nothing when `s` holds
   no token (pandas' `.str.get(-1)` then yields NaN).
   */
  function LastToken(s: string): Option<string> {
    var t := TrimEnd(s);
    if t == [] then None else Some(TrailingWord(t))
  }

  /**
   LastToken finds nothing exactly in an all-whitespace string; otherwise the token is a
   non-empty run without whitespace, preceded by whitespace or the start of `s` and followed
   only by whitespace.
   */
  lemma LastTokenSpec(s: string)
    ensures LastToken(s).None? <==> AllSpace(s)
    ensures LastToken(s).Some? ==>
              var w := LastToken(s).value;
              && w != [] && NoSpace(w)
              && exists i: nat :: OccursAt(s, w, i)
                             && (i == 0 || IsSpace(s[i - 1]))
                             && AllSpace(s[i + |w|..])
  {
    var t := TrimEnd(s);
    assert s == t + s[|t|..];
    if t != [] {
      var w := TrailingWord(t);
      var i := |t| - |w|;
      assert OccursAt(s, w, i);
      assert s[i + |w|..] == s[|t|..];
      if i > 0 {
        assert s[i - 1] == t[i - 1];
      }
    } else {
      assert s[|t|..] == s;
    }
  }

  /** Python's `a <= b` on strings: lexicographic order by code point. */
  predicate LessEq(a: string, b: string) {
    if |a| == 0 then true
    else if |b| == 0 then false
    else if a[0] != b[0] then a[0] < b[0]
    else LessEq(a[1..], b[1..])
  }

  lemma {:induction false} LessEqTotal(a: string, b: string)
    ensures LessEq(a, b) || LessEq(b, a)
  {
    if |a| > 0 && |b| > 0 && a[0] == b[0] {
      LessEqTotal(a[1..], b[1..]);
    }
  }

  lemma {:induction false} LessEqTransitive(a: string, b: string, c: string)
    requires LessEq(a, b) && LessEq(b, c)
    ensures LessEq(a, c)
  {
    if |a| > 0 && |b| > 0 && |c| > 0 && a[0] == b[0] && b[0] == c[0] {
      LessEqTransitive(a[1..], b[1..], c[1..]);
    }
  }

  lemma {:induction false} LessEqAntisymmetric(a: string, b: string)
    requires LessEq(a, b) && LessEq(b, a)
    ensures a == b
  {
    if |a| > 0 && |b| > 0 {
      LessEqAntisymmetric(a[1..], b[1..]);
      assert a == [a[0]] + a[1..] && b == [b[0]] + b[1..];
    }
  }
}
