/**
 * The pieces of Rust's `str` that the search relies on: the substring test
 * `str::contains`, per-character lowercasing for `str::to_lowercase`, and the
 * line splitting of `str::lines`. Text is a sequence of chars.
 */
module Text {

  /* ---------------------------------------------------------------------- */
  /* Substrings                                                              */
  /* ---------------------------------------------------------------------- */

  /** `needle` occurs in `haystack` starting at index `i`. */
  predicate OccursAt(haystack: string, needle: string, i: int)
  {
    0 <= i <= |haystack| - |needle| && haystack[i..i + |needle|] == needle
  }

  /** `haystack.contains(needle)`: `needle` is a contiguous piece of `haystack`. */
  predicate Contains(haystack: string, needle: string)
    ensures Contains(haystack, needle) ==> |needle| <= |haystack|
    ensures needle == [] ==> Contains(haystack, needle)
    ensures OccursAt(haystack, needle, 0) ==> Contains(haystack, needle)
    ensures OccursAt(haystack, needle, |haystack| - |needle|) ==> Contains(haystack, needle)
  {
    assert needle == [] ==> OccursAt(haystack, needle, 0);
    exists i | 0 <= i <= |haystack| - |needle| :: OccursAt(haystack, needle, i)
  }

  /** The empty string is contained in every string. */
  lemma ContainsEmpty(haystack: string)
    ensures Contains(haystack, "")
  {
    assert OccursAt(haystack, "", 0);
  }

  /** A string contains itself. */
  lemma ContainsSelf(s: string)
    ensures Contains(s, s)
  {
    assert OccursAt(s, s, 0);
  }

  /** A needle longer than the haystack never occurs in it. */
  lemma NotContainsLonger(haystack: string, needle: string)
    requires |haystack| < |needle|
    ensures !Contains(haystack, needle)
  {
  }

  /** Every character of a contained needle is a character of the haystack. */
  lemma ContainsChars(haystack: string, needle: string, c: char)
    requires Contains(haystack, needle) && c in needle
    ensures c in haystack
  {
    var i :| OccursAt(haystack, needle, i);
    assert OccursAt(haystack, needle, i);
    var j :| 0 <= j < |needle| && needle[j] == c;
    assert haystack[i + j] == haystack[i..i + |needle|][j];
  }

  /** When a string is contained, all of its characters occur in the containing one. */
  lemma ContainedCharsOccur(haystack: string, needle: string)
    ensures Contains(haystack, needle) ==> forall c :: c in needle ==> c in haystack
  {
    forall c | Contains(haystack, needle) && c in needle ensures c in haystack {
      ContainsChars(haystack, needle, c);
    }
  }

  /** Containment is transitive: a piece of a piece of `s` is a piece of `s`. */
  lemma ContainsTransitive(s: string, t: string, u: string)
    requires Contains(s, t) && Contains(t, u)
    ensures Contains(s, u)
  {
    var i :| OccursAt(s, t, i);
    var j :| OccursAt(t, u, j);
    assert OccursAt(s, t, i) && OccursAt(t, u, j);
    forall m | 0 <= m < |u|
      ensures s[i + j + m] == u[m]
    {
      assert u[m] == t[j..j + |u|][m] == t[j + m];
      assert t[j + m] == s[i..i + |t|][j + m] == s[i + j + m];
    }
    assert OccursAt(s, u, i + j);
  }

  /* ---------------------------------------------------------------------- */
  /* Case folding                                                            */
  /* ---------------------------------------------------------------------- */

  /** An upper-case ASCII letter. */
  predicate IsUpper(c: char)
  {
    'A' <= c <= 'Z'
  }

  /** Lowercase one character: ASCII letters are folded, every other character is kept. */
  function Lower(c: char): (d: char)
    ensures !IsUpper(d)
    ensures IsUpper(c) ==> d as int == c as int + 32
    ensures !IsUpper(c) ==> d == c
  {
    if IsUpper(c) then (c as int - 'A' as int + 'a' as int) as char else c
  }

  /** `s.to_lowercase()`, one character at a time. */
  function ToLowercase(s: string): (r: string)
    ensures |r| == |s|
    ensures forall i :: 0 <= i < |r| ==> !IsUpper(r[i])
    ensures forall i :: 0 <= i < |s| && IsUpper(s[i]) ==> r[i] as int == s[i] as int + 32
    ensures forall i :: 0 <= i < |s| && !IsUpper(s[i]) ==> r[i] == s[i]
  {
    seq(|s|, i requires 0 <= i < |s| => Lower(s[i]))
  }

  /** Lowercasing a string that is already lowercase changes nothing. */
  lemma ToLowercaseIdempotent(s: string)
    ensures ToLowercase(ToLowercase(s)) == ToLowercase(s)
  {
  }

  /** Lowercasing commutes with taking a slice. */
  lemma ToLowercaseSlice(s: string, i: int, j: int)
    requires 0 <= i <= j <= |s|
    ensures ToLowercase(s[i..j]) == ToLowercase(s)[i..j]
  {
  }

  /** A letter whose lower-case and upper-case forms are both absent from `s` is absent from
      the lowercase form of `s`. */
  lemma LetterAbsentFolded(s: string, lower: char, upper: char)
    requires IsUpper(upper) && lower as int == upper as int + 32
    requires lower !in s && upper !in s
    ensures lower !in ToLowercase(s)
  {
  }

  /** Case-sensitive containment implies case-insensitive containment. */
  lemma ContainsToLowercase(haystack: string, needle: string)
    requires Contains(haystack, needle)
    ensures Contains(ToLowercase(haystack), ToLowercase(needle))
  {
    var i :| OccursAt(haystack, needle, i);
    assert OccursAt(haystack, needle, i);
    ToLowercaseSlice(haystack, i, i + |needle|);
    assert OccursAt(ToLowercase(haystack), ToLowercase(needle), i);
  }

  /* ---------------------------------------------------------------------- */
  /* Lines                                                                   */
  /* ---------------------------------------------------------------------- */

  /** The index of the first '\n' of `s`, or `|s|` when there is none. */
  function NewlineIndex(s: string): (k: nat)
    ensures k <= |s|
    ensures k < |s| ==> s[k] == '\n'
    ensures '\n' !in s[..k]
  {
    if s == [] || s[0] == '\n' then 0
    else
      var k := 1 + NewlineIndex(s[1..]);
      assert s[..k] == [s[0]] + s[1..][..k - 1];
      k
  }

  /** `s` ends with a carriage return. */
  predicate EndsWithCr(s: string)
  {
    s != [] && s[|s| - 1] == '\r'
  }

  /** Drop one trailing '\r', as `str::lines` does before a '\n'. */
  function StripCr(s: string): (r: string)
  {
    if EndsWithCr(s) then s[..|s| - 1] else s
  }

  /**
   * `s.lines()`: the pieces of `s` between '\n' characters. A '\r' just before a
   * '\n' belongs to the line ending; a final line without '\n' is kept as it is;
   * there is no empty line after a final '\n', and the empty string has no lines.
   */
  function Lines(s: string): (r: seq<string>)
    ensures |r| <= |s|
    ensures r == [] <==> s == []
    ensures forall i :: 0 <= i < |r| ==> '\n' !in r[i]
    decreases |s|
  {
    if s == [] then []
    else
      var k := NewlineIndex(s);
      if k == |s| then [s]
      else
        assert s[..k] == s[..k][..|StripCr(s[..k])|] + s[..k][|StripCr(s[..k])|..];
        [StripCr(s[..k])] + Lines(s[k + 1..])
  }

  /** The lines of `ls`, each followed by '\n'. */
  function Unlines(ls: seq<string>): (s: string)
  {
    if ls == [] then [] else ls[0] + "\n" + Unlines(ls[1..])
  }

  /** The lines of `ls` with '\n' between them, as a text without a final '\n' is written. */
  function Join(ls: seq<string>): (s: string)
  {
    if ls == [] then []
    else if |ls| == 1 then ls[0]
    else ls[0] + "\n" + Join(ls[1..])
  }

  /** `NewlineIndex` is the one index that is either the end or a '\n' with none before it. */
  lemma NewlineIndexUnique(s: string, k: nat)
    requires k <= |s| && (k < |s| ==> s[k] == '\n') && '\n' !in s[..k]
    ensures NewlineIndex(s) == k
  {
  }

  /** A text without '\n' is one line, kept as it is. */
  lemma LinesOfOneLine(s: string)
    requires s != [] && '\n' !in s
    ensures Lines(s) == [s]
  {
    assert s[..|s|] == s;
    NewlineIndexUnique(s, |s|);
  }

  /** A line followed by '\n' is split off the front of a text, without a '\r' just before the '\n'. */
  lemma LinesAfterLine(a: string, b: string)
    requires '\n' !in a
    ensures Lines(a + "\n" + b) == [StripCr(a)] + Lines(b)
  {
    var s := a + "\n" + b;
    assert s[|a|] == '\n' && s[..|a|] == a;
    NewlineIndexUnique(s, |a|);
    assert s[|a| + 1..] == b;
  }

  /** Splitting lines joined by '\n' gives them back, when no line holds a '\n', no line but
      the last ends with '\r', and the last line is not empty. */
  lemma {:induction false} LinesOfJoin(ls: seq<string>)
    requires ls != [] && ls[|ls| - 1] != []
    requires forall i :: 0 <= i < |ls| ==> '\n' !in ls[i]
    requires forall i :: 0 <= i < |ls| - 1 ==> !EndsWithCr(ls[i])
    ensures Lines(Join(ls)) == ls
    decreases |ls|
  {
    if |ls| == 1 {
      LinesOfOneLine(ls[0]);
    } else {
      LinesAfterLine(ls[0], Join(ls[1..]));
      LinesOfJoin(ls[1..]);
      assert ls == [ls[0]] + ls[1..];
    }
  }

  /** Splitting lines each followed by '\n' gives them back, when no line holds a '\n' or
      ends with '\r'. */
  lemma {:induction false} LinesOfUnlines(ls: seq<string>)
    requires forall i :: 0 <= i < |ls| ==> '\n' !in ls[i] && !EndsWithCr(ls[i])
    ensures Lines(Unlines(ls)) == ls
    decreases |ls|
  {
    if ls != [] {
      LinesAfterLine(ls[0], Unlines(ls[1..]));
      LinesOfUnlines(ls[1..]);
      assert ls == [ls[0]] + ls[1..];
    }
  }

  /** A text that is not one line is its first line, a '\n', and the rest. */
  lemma SplitAtNewline(s: string) returns (line: string, tail: string)
    requires NewlineIndex(s) < |s|
    ensures line == s[..NewlineIndex(s)] && s == line + "\n" + tail && |tail| < |s|
  {
    var k := NewlineIndex(s);
    line, tail := s[..k], s[k + 1..];
    assert s == line + "\n" + tail;
  }

  /** `s` with a '\n' added at the end, unless it is empty or already ends in one. */
  function Terminated(s: string): (r: string)
  {
    if s == [] || s[|s| - 1] == '\n' then s else s + "\n"
  }

  /** Terminating a text that begins with a line terminates the text after that line. */
  lemma TerminatedAfterLine(line: string, tail: string)
    ensures Terminated(line + "\n" + tail) == line + "\n" + Terminated(tail)
  {
    if tail != [] {
      assert (line + "\n" + tail)[|line + "\n" + tail| - 1] == tail[|tail| - 1];
    }
  }

  /** No '\r' of `s` comes directly before a '\n'. */
  predicate NoCrLf(s: string)
  {
    forall i :: 0 <= i < |s| - 1 ==> !(s[i] == '\r' && s[i + 1] == '\n')
  }

  /** Joining the lines of a text with no '\r' directly before a '\n' gives the text back,
      with a '\n' added at the end when the text is not empty and does not already end in one. */
  lemma {:induction false} UnlinesOfLines(s: string)
    requires NoCrLf(s)
    ensures Unlines(Lines(s)) == Terminated(s)
    decreases |s|
  {
    if s != [] {
      if NewlineIndex(s) == |s| {
        assert s[..|s|] == s;
        LinesOfOneLine(s);
        assert Unlines([s]) == s + "\n" + Unlines([]);
      } else {
        var line, tail := SplitAtNewline(s);
        var k := |line|;
        assert !EndsWithCr(line) by {
          if line != [] {
            assert s[k - 1] == line[k - 1] && s[k] == '\n';
          }
        }
        assert NoCrLf(tail) by {
          forall i | 0 <= i < |tail| - 1 ensures !(tail[i] == '\r' && tail[i + 1] == '\n') {
            assert tail[i] == s[k + 1 + i] && tail[i + 1] == s[k + 2 + i];
          }
        }
        LinesAfterLine(line, tail);
        UnlinesOfLines(tail);
        UnlinesCons(line, Lines(tail));
        TerminatedAfterLine(line, tail);
      }
    }
  }

  /** Joining a first line onto further lines. */
  lemma UnlinesCons(line: string, ls: seq<string>)
    ensures Unlines([line] + ls) == line + "\n" + Unlines(ls)
  {
    assert ([line] + ls)[1..] == ls;
  }

  /** A final '\n' is optional: it adds no line, unless the text is empty, already ends in
      '\n', or ends in a '\r' it would strip. */
  lemma {:induction false} FinalNewlineOptional(s: string)
    requires s != [] && s[|s| - 1] != '\n' && s[|s| - 1] != '\r'
    ensures Lines(s + "\n") == Lines(s)
    decreases |s|
  {
    if NewlineIndex(s) == |s| {
      LastLineTerminated(s);
    } else {
      var line, tail := SplitAtNewline(s);
      assert tail != [] && tail[|tail| - 1] == s[|s| - 1];
      LinesAfterLine(line, tail);
      LinesAfterLine(line, tail + "\n");
      assert s + "\n" == line + "\n" + (tail + "\n");
      FinalNewlineOptional(tail);
    }
  }

  /** A last line without '\n' and without a final '\r' gives the same one line when terminated. */
  lemma LastLineTerminated(s: string)
    requires s != [] && NewlineIndex(s) == |s| && !EndsWithCr(s)
    ensures Lines(s + "\n") == Lines(s) == [s]
  {
    assert s[..|s|] == s;
    LinesOfOneLine(s);
    LinesAfterLine(s, "");
    assert s + "\n" == s + "\n" + "";
  }

  /** Every line is a contiguous piece of the text it was split from. */
  lemma {:induction false} LinesAreSlices(s: string, l: string)
    requires l in Lines(s)
    ensures Contains(s, l)
    decreases |s|
  {
    var k := NewlineIndex(s);
    if k == |s| {
      ContainsSelf(s);
    } else if l == StripCr(s[..k]) {
      assert OccursAt(s, l, 0);
    } else {
      var tail := s[k + 1..];
      assert l in Lines(tail);
      LinesAreSlices(tail, l);
      assert OccursAt(s, tail, k + 1);
      ContainsTransitive(s, tail, l);
    }
  }
}
