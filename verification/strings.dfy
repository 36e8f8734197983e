/**
  The string operations `ResizePDF` relies on: Python's `str.split(sep)` with
  an explicit one-character separator, the text after the last occurrence of a
  character (what `str.rfind` followed by slicing gives), and `str.lower()`.
*/
module Strings {

  /** `s` ends with `suffix`. */
  predicate IsSuffix(suffix: string, s: string) {
    |suffix| <= |s| && suffix == s[|s| - |suffix|..]
  }

  /** Python's `s.split(sep)`: the pieces between occurrences of `sep`, empty
      pieces included, so that there is always at least one piece. */
  function Split(s: string, sep: char): (parts: seq<string>)
    ensures |parts| >= 1
    decreases |s|
  {
    if |s| == 0 then [""]
    else if s[0] == sep then [""] + Split(s[1..], sep)
    else
      var rest := Split(s[1..], sep);
      [[s[0]] + rest[0]] + rest[1..]
  }

  /** Python's `sep.join(parts)` for a one-character separator. */
  function Join(parts: seq<string>, sep: char): (s: string)
    requires |parts| >= 1
    ensures |s| >= |parts| - 1
    decreases |parts|
  {
    if |parts| == 1 then parts[0] else parts[0] + [sep] + Join(parts[1..], sep)
  }

  function Last<T>(xs: seq<T>): T
    requires |xs| >= 1
  {
    xs[|xs| - 1]
  }

  /** The text after the last `c` in `s`, or all of `s` when `c` does not occur:
      `s[s.rfind(c) + 1:]` in Python. It is the longest suffix of `s` free of `c`. */
  function AfterLast(s: string, c: char): (r: string)
    ensures IsFinalPiece(r, s, c)
    decreases |s|
  {
    if |s| == 0 then ""
    else if s[|s| - 1] == c then ""
    else AfterLast(s[..|s| - 1], c) + [s[|s| - 1]]
  }

  /** `str.lower()` on one character, for the ASCII letters. */
  function LowerChar(ch: char): char {
    if 'A' <= ch <= 'Z' then (ch as int - 'A' as int + 'a' as int) as char else ch
  }

  /** `str.lower()`, character by character. */
  function Lower(s: string): (r: string)
    ensures |r| == |s|
    ensures forall i :: 0 <= i < |s| ==> r[i] == LowerChar(s[i])
    decreases |s|
  {
    if |s| == 0 then "" else [LowerChar(s[0])] + Lower(s[1..])
  }

  // ---------------------------------------------------------------------------
  // Split and Join

  /** Joining the pieces of a split with the same separator gives back the string. */
  lemma {:induction false} JoinSplit(s: string, sep: char)
    ensures Join(Split(s, sep), sep) == s
    decreases |s|
  {
    if |s| == 0 {
    } else if s[0] == sep {
      JoinSplit(s[1..], sep);
      assert s == [sep] + s[1..];
    } else {
      var rest := Split(s[1..], sep);
      JoinSplit(s[1..], sep);
      if |rest| == 1 {
        assert s == [s[0]] + s[1..];
      } else {
        assert Split(s, sep)[1..] == rest[1..];
        assert s == [s[0]] + s[1..];
      }
    }
  }

  /** No piece of a split contains the separator. */
  lemma {:induction false} SplitPiecesFree(s: string, sep: char)
    ensures forall k :: 0 <= k < |Split(s, sep)| ==> sep !in Split(s, sep)[k]
    decreases |s|
  {
    if |s| > 0 {
      SplitPiecesFree(s[1..], sep);
    }
  }

  /** A string free of the separator splits into itself alone. */
  lemma {:induction false} SplitFree(s: string, sep: char)
    requires sep !in s
    ensures Split(s, sep) == [s]
    decreases |s|
  {
    if |s| > 0 {
      assert s[0] in s;
      assert forall k :: 0 <= k < |s[1..]| ==> s[1..][k] == s[k + 1];
      SplitFree(s[1..], sep);
      assert s == [s[0]] + s[1..];
    }
  }

  /** Splitting at a separator after a separator-free prefix. */
  lemma {:induction false} SplitAfterPiece(p: string, sep: char, t: string)
    requires sep !in p
    ensures Split(p + [sep] + t, sep) == [p] + Split(t, sep)
    decreases |p|
  {
    if |p| > 0 {
      assert p[0] in p;
      assert forall k :: 0 <= k < |p[1..]| ==> p[1..][k] == p[k + 1];
      SplitAfterPiece(p[1..], sep, t);
      assert (p + [sep] + t)[1..] == p[1..] + [sep] + t;
      assert [p[0]] + p[1..] == p;
    } else {
      assert (p + [sep] + t)[1..] == t;
    }
  }

  /** Splitting a join of separator-free pieces gives back the pieces. */
  lemma {:induction false} SplitJoin(parts: seq<string>, sep: char)
    requires |parts| >= 1
    requires forall k :: 0 <= k < |parts| ==> sep !in parts[k]
    ensures Split(Join(parts, sep), sep) == parts
    decreases |parts|
  {
    if |parts| == 1 {
      SplitFree(parts[0], sep);
    } else {
      SplitJoin(parts[1..], sep);
      SplitAfterPiece(parts[0], sep, Join(parts[1..], sep));
      assert [parts[0]] + parts[1..] == parts;
    }
  }

  /** A string holds no separator exactly when it splits into one piece. */
  lemma SplitSingleIff(s: string, sep: char)
    ensures |Split(s, sep)| == 1 <==> sep !in s
  {
    if sep !in s {
      SplitFree(s, sep);
    } else {
      JoinSplit(s, sep);
      SplitPiecesFree(s, sep);
    }
  }

  // ---------------------------------------------------------------------------
  // The last piece of a split

  /** `p` is the final piece of `s` cut at `c`: a suffix free of `c` that is
      either all of `s` or preceded by a `c`. */
  predicate IsFinalPiece(p: string, s: string, c: char) {
    IsSuffix(p, s) && c !in p && (|p| == |s| || s[|s| - |p| - 1] == c)
  }

  /** There is only one final piece: it is `AfterLast(s, c)`. */
  lemma AfterLastUnique(s: string, c: char, r: string)
    requires IsFinalPiece(r, s, c)
    ensures r == AfterLast(s, c)
  {
  }

  /** Putting a character in front keeps the final piece, unless the string had
      no `c` and the new character is not one. */
  lemma FinalPieceCons(x: char, t: string, c: char, p: string)
    requires IsFinalPiece(p, t, c)
    requires x == c || c in t
    ensures IsFinalPiece(p, [x] + t, c)
  {
    var s := [x] + t;
    assert t == s[1..];
    assert t[|t| - |p|..] == s[|s| - |p|..];
    if |p| == |t| {
      assert p == t;
    } else {
      assert t[|t| - |p| - 1] == s[|s| - |p| - 1];
    }
  }

  /** One step of `Split` seen from its last piece: a leading character other
      than the separator joins the first piece, which is also the last one only
      when the rest splits into a single piece. */
  lemma LastPieceStep(s: string, c: char)
    requires |s| > 0
    ensures var rest := Split(s[1..], c);
            Last(Split(s, c)) == if s[0] != c && |rest| == 1 then [s[0]] + rest[0] else Last(rest)
  {
  }

  /** A string free of `c` is its own final piece. */
  lemma WholeFinalPiece(s: string, c: char)
    requires c !in s
    ensures IsFinalPiece(s, s, c)
  {
  }

  /** The last piece of `s.split(c)` is the final piece of `s`. */
  lemma {:induction false} LastPieceShape(s: string, c: char)
    ensures IsFinalPiece(Last(Split(s, c)), s, c)
    decreases |s|
  {
    if |s| == 0 {
      return;
    }
    var t := s[1..];
    var rest := Split(t, c);
    LastPieceShape(t, c);
    LastPieceStep(s, c);
    assert s == [s[0]] + t;
    if s[0] != c && |rest| == 1 {
      SplitSingleIff(t, c);
      SplitFree(t, c);
      assert Last(Split(s, c)) == s;
      WholeFinalPiece(s, c);
    } else {
      if s[0] != c {
        SplitSingleIff(t, c);
      }
      FinalPieceCons(s[0], t, c, Last(rest));
    }
  }

  lemma LastPieceIsAfterLast(s: string, c: char)
    ensures Last(Split(s, c)) == AfterLast(s, c)
  {
    LastPieceShape(s, c);
    AfterLastUnique(s, c, Last(Split(s, c)));
  }

  // ---------------------------------------------------------------------------
  // Lowering

  /** A character lowers to a lower-case letter exactly when it is that letter
      or its capital. */
  lemma LowerCharIff(ch: char, lo: char)
    requires 'a' <= lo <= 'z'
    ensures LowerChar(ch) == lo <==> ch == lo || ch as int == lo as int - 32
  {
  }

  /** A string lowers to "pdf" exactly when it is "pdf" in any mix of cases. */
  lemma LowerIsPdfIff(s: string)
    ensures Lower(s) == "pdf" <==>
            |s| == 3 && (s[0] == 'p' || s[0] == 'P') && (s[1] == 'd' || s[1] == 'D') && (s[2] == 'f' || s[2] == 'F')
  {
    if |s| == 3 {
      var r := Lower(s);
      LowerCharIff(s[0], 'p');
      LowerCharIff(s[1], 'd');
      LowerCharIff(s[2], 'f');
      assert r == "pdf" <==> r[0] == 'p' && r[1] == 'd' && r[2] == 'f';
    }
  }
}
