/**
 * The search engine: the lines of a text that contain a query, either exactly
 * (`search`) or ignoring case (`insensitive_search`), and `run`, which picks one
 * of the two for a configuration.
 *
 * `Matching` is the specification both searches are proved against: the
 * order-preserving, duplicate-keeping filter of a list of lines by `Hit`.
 */
module Search {
  import opened Wrappers
  import opened Text
  import opened Config

  /** Whether `line` is reported for `query`: it contains the query, or, when case is
      ignored, its lowercase form contains the lowercase form of the query. */
  predicate Hit(line: string, query: string, ignoreCase: bool)
    ensures Hit(line, query, ignoreCase) ==> |query| <= |line|
    ensures query == [] ==> Hit(line, query, ignoreCase)
    ensures !ignoreCase && Hit(line, query, ignoreCase) ==> forall c :: c in query ==> c in line
  {
    ContainedCharsOccur(line, query);
    if ignoreCase then Contains(ToLowercase(line), ToLowercase(query))
    else Contains(line, query)
  }

  /** The lines of `lines` that are hits for `query`, in their order, each occurrence kept. */
  function Matching(query: string, lines: seq<string>, ignoreCase: bool): (r: seq<string>)
    ensures |r| <= |lines|
    ensures forall i :: 0 <= i < |r| ==> Hit(r[i], query, ignoreCase)
    decreases |lines|
  {
    if lines == [] then []
    else if Hit(lines[0], query, ignoreCase) then [lines[0]] + Matching(query, lines[1..], ignoreCase)
    else Matching(query, lines[1..], ignoreCase)
  }

  /** One step of the filter, at index `k` of the lines. */
  lemma MatchingStep(query: string, lines: seq<string>, ignoreCase: bool, k: nat)
    requires k < |lines|
    ensures Matching(query, lines[k..], ignoreCase)
         == (if Hit(lines[k], query, ignoreCase) then [lines[k]] else []) + Matching(query, lines[k + 1..], ignoreCase)
  {
    assert lines[k..][0] == lines[k] && lines[k..][1..] == lines[k + 1..];
  }

  /** `xs` is `ys` with some elements left out: the elements of `xs` appear in `ys` in the same order. */
  predicate IsSubsequence<T(==)>(xs: seq<T>, ys: seq<T>)
    decreases |ys|
  {
    xs == [] ||
    (ys != [] &&
      ((xs[0] == ys[0] && IsSubsequence(xs[1..], ys[1..])) || IsSubsequence(xs, ys[1..])))
  }

  /** Lowercase every line of a list. */
  function LowercaseAll(lines: seq<string>): (r: seq<string>)
  {
    seq(|lines|, i requires 0 <= i < |lines| => ToLowercase(lines[i]))
  }

  /* ---------------------------------------------------------------------- */
  /* What the filter keeps                                                   */
  /* ---------------------------------------------------------------------- */

  /** A line is in the result exactly when it is one of the lines and a hit. */
  lemma {:induction false} MatchingMembers(query: string, lines: seq<string>, ignoreCase: bool, x: string)
    ensures x in Matching(query, lines, ignoreCase) <==> x in lines && Hit(x, query, ignoreCase)
    decreases |lines|
  {
    if lines != [] {
      MatchingMembers(query, lines[1..], ignoreCase, x);
      assert lines == [lines[0]] + lines[1..];
    }
  }

  /** The result keeps the order of the lines. */
  lemma {:induction false} MatchingKeepsOrder(query: string, lines: seq<string>, ignoreCase: bool)
    ensures IsSubsequence(Matching(query, lines, ignoreCase), lines)
    decreases |lines|
  {
    if lines != [] {
      MatchingKeepsOrder(query, lines[1..], ignoreCase);
      var rest := Matching(query, lines[1..], ignoreCase);
      if Hit(lines[0], query, ignoreCase) {
        assert ([lines[0]] + rest)[1..] == rest;
      }
    }
  }

  /** A matching line occurs in the result as often as in the lines; any other line not at all. */
  lemma {:induction false} MatchingMultiplicity(query: string, lines: seq<string>, ignoreCase: bool, x: string)
    ensures multiset(Matching(query, lines, ignoreCase))[x]
         == if Hit(x, query, ignoreCase) then multiset(lines)[x] else 0
    decreases |lines|
  {
    if lines != [] {
      MatchingMultiplicity(query, lines[1..], ignoreCase, x);
      assert lines == [lines[0]] + lines[1..];
      assert multiset(lines) == multiset([lines[0]]) + multiset(lines[1..]);
    }
  }

  /** Filtering a concatenation filters each part. */
  lemma {:induction false} MatchingAppend(query: string, a: seq<string>, b: seq<string>, ignoreCase: bool)
    ensures Matching(query, a + b, ignoreCase) == Matching(query, a, ignoreCase) + Matching(query, b, ignoreCase)
    decreases |a|
  {
    if a != [] {
      assert (a + b)[0] == a[0] && (a + b)[1..] == a[1..] + b;
      MatchingAppend(query, a[1..], b, ignoreCase);
    } else {
      assert a + b == b;
    }
  }

  /** Every line is kept exactly when every line is a hit. */
  lemma {:induction false} MatchingAll(query: string, lines: seq<string>, ignoreCase: bool)
    ensures Matching(query, lines, ignoreCase) == lines
        <==> forall i :: 0 <= i < |lines| ==> Hit(lines[i], query, ignoreCase)
    decreases |lines|
  {
    if lines != [] {
      MatchingAll(query, lines[1..], ignoreCase);
      if !Hit(lines[0], query, ignoreCase) {
        assert |Matching(query, lines[1..], ignoreCase)| <= |lines[1..]| < |lines|;
      } else {
        var rest := Matching(query, lines[1..], ignoreCase);
        assert lines == [lines[0]] + lines[1..];
        assert [lines[0]] + rest == lines ==> rest == lines[1..];
        assert (forall i :: 0 <= i < |lines[1..]| ==> Hit(lines[1..][i], query, ignoreCase))
          ==> forall i :: 0 <= i < |lines| ==> Hit(lines[i], query, ignoreCase) by {
          forall i | 0 <= i < |lines| && (forall j :: 0 <= j < |lines[1..]| ==> Hit(lines[1..][j], query, ignoreCase))
            ensures Hit(lines[i], query, ignoreCase)
          {
            if i > 0 { assert lines[i] == lines[1..][i - 1]; }
          }
        }
      }
    }
  }

  /** Nothing is kept exactly when no line is a hit. */
  lemma {:induction false} MatchingNone(query: string, lines: seq<string>, ignoreCase: bool)
    ensures Matching(query, lines, ignoreCase) == []
        <==> forall i :: 0 <= i < |lines| ==> !Hit(lines[i], query, ignoreCase)
    decreases |lines|
  {
    if lines != [] {
      MatchingNone(query, lines[1..], ignoreCase);
      if !Hit(lines[0], query, ignoreCase) {
        forall i | 0 < i < |lines| ensures lines[i] == lines[1..][i - 1] { }
      }
    }
  }

  /* ---------------------------------------------------------------------- */
  /* Degenerate queries                                                      */
  /* ---------------------------------------------------------------------- */

  /** The empty query matches every line, with or without case. */
  lemma EmptyQueryMatchesEveryLine(lines: seq<string>, ignoreCase: bool)
    ensures Matching("", lines, ignoreCase) == lines
  {
    forall i | 0 <= i < |lines| ensures Hit(lines[i], "", ignoreCase) {
      ContainsEmpty(lines[i]);
      ContainsEmpty(ToLowercase(lines[i]));
    }
    MatchingAll("", lines, ignoreCase);
  }

  /** A query longer than every line matches nothing. */
  lemma LongQueryMatchesNothing(query: string, lines: seq<string>, ignoreCase: bool)
    requires forall i :: 0 <= i < |lines| ==> |lines[i]| < |query|
    ensures Matching(query, lines, ignoreCase) == []
  {
    forall i | 0 <= i < |lines| ensures !Hit(lines[i], query, ignoreCase) {
      NotContainsLonger(lines[i], query);
      NotContainsLonger(ToLowercase(lines[i]), ToLowercase(query));
    }
    MatchingNone(query, lines, ignoreCase);
  }

  /* ---------------------------------------------------------------------- */
  /* Ignoring case                                                           */
  /* ---------------------------------------------------------------------- */

  /** Ignoring case finds every line the exact search finds, in the same order. */
  lemma {:induction false} ExactHitsAreFoldedHits(query: string, lines: seq<string>)
    ensures IsSubsequence(Matching(query, lines, false), Matching(query, lines, true))
    decreases |lines|
  {
    if lines != [] {
      ExactHitsAreFoldedHits(query, lines[1..]);
      var exact := Matching(query, lines[1..], false);
      var folded := Matching(query, lines[1..], true);
      if Hit(lines[0], query, false) {
        ContainsToLowercase(lines[0], query);
        assert ([lines[0]] + exact)[1..] == exact;
        assert ([lines[0]] + folded)[1..] == folded;
      } else if Hit(lines[0], query, true) {
        SubsequenceOfTail(exact, folded, lines[0]);
      }
    }
  }

  /** A subsequence of `ys` is a subsequence of `[y] + ys`. */
  lemma {:induction false} SubsequenceOfTail<T>(xs: seq<T>, ys: seq<T>, y: T)
    requires IsSubsequence(xs, ys)
    ensures IsSubsequence(xs, [y] + ys)
  {
    assert ([y] + ys)[1..] == ys;
  }

  /**
   * Ignoring case is the exact search of the lowercase query over the lowercase
   * lines, except that the lines reported are the original ones: lowercasing the
   * reported lines gives what the exact search of the lowercase text reports.
   */
  lemma {:induction false} FoldedIsExactOnLowercase(query: string, lines: seq<string>)
    ensures LowercaseAll(Matching(query, lines, true))
         == Matching(ToLowercase(query), LowercaseAll(lines), false)
    decreases |lines|
  {
    if lines != [] {
      FoldedIsExactOnLowercase(query, lines[1..]);
      var lowered := LowercaseAll(lines);
      assert lowered[0] == ToLowercase(lines[0]);
      assert lowered[1..] == LowercaseAll(lines[1..]);
      ToLowercaseIdempotent(query);
      var rest := Matching(query, lines[1..], true);
      assert LowercaseAll([lines[0]] + rest) == [ToLowercase(lines[0])] + LowercaseAll(rest);
    }
  }

  /** Queries that differ only in case find the same lines when case is ignored. */
  lemma {:induction false} FoldedIgnoresQueryCase(q1: string, q2: string, lines: seq<string>)
    requires ToLowercase(q1) == ToLowercase(q2)
    ensures Matching(q1, lines, true) == Matching(q2, lines, true)
    decreases |lines|
  {
    if lines != [] {
      FoldedIgnoresQueryCase(q1, q2, lines[1..]);
    }
  }

  /* ---------------------------------------------------------------------- */
  /* The searches over a text                                                */
  /* ---------------------------------------------------------------------- */

  /** Every reported line is a verbatim piece of the searched text. */
  lemma MatchesAreSlices(query: string, text: string, ignoreCase: bool, l: string)
    requires l in Matching(query, Lines(text), ignoreCase)
    ensures Contains(text, l)
  {
    MatchingMembers(query, Lines(text), ignoreCase, l);
    LinesAreSlices(text, l);
  }

  /** `search`: collect the lines of `source` that contain `query`. */
  method Search(query: string, source: string) returns (result: seq<string>)
    ensures result == Matching(query, Lines(source), false)
  {
    result := [];
    var lines := Lines(source);
    for i := 0 to |lines|
      invariant result + Matching(query, lines[i..], false) == Matching(query, lines, false)
    {
      MatchingStep(query, lines, false, i);
      if Contains(lines[i], query) {
        result := result + [lines[i]];
      }
    }
    assert lines[|lines|..] == [];
  }

  /** `insensitive_search`: lowercase the query once, then collect the lines of `source`
      whose lowercase form contains it; the lines collected keep their case. */
  method InsensitiveSearch(query: string, source: string) returns (result: seq<string>)
    ensures result == Matching(query, Lines(source), true)
  {
    result := [];
    var lowerQuery := ToLowercase(query);
    var lines := Lines(source);
    for i := 0 to |lines|
      invariant result + Matching(query, lines[i..], true) == Matching(query, lines, true)
    {
      MatchingStep(query, lines, true, i);
      if Contains(ToLowercase(lines[i]), lowerQuery) {
        result := result + [lines[i]];
      }
    }
    assert lines[|lines|..] == [];
  }

  /**
   * `run`, given the outcome of reading the file `parser.source`: a failed read is
   * passed on unchanged and nothing is printed; otherwise the lines printed, in
   * order, are those of the search that `parser.ignoreCase` selects.
   */
  method Run(parser: Parser, read: Result<string, string>) returns (printed: Result<seq<string>, string>)
    ensures read.Err? ==> printed == Err(read.error)
    ensures read.Ok? ==> printed == Ok(Matching(parser.query, Lines(read.value), parser.ignoreCase))
  {
    if read.Err? {
      return Err(read.error);
    }
    var found;
    if parser.ignoreCase {
      found := InsensitiveSearch(parser.query, read.value);
    } else {
      found := Search(parser.query, read.value);
    }
    printed := Ok(found);
  }
}
