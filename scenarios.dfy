/**
 * The two unit tests of the library, stated as lemmas about the specification
 * of the searches, and a text on which the two searches differ.
 */
module Scenarios {
  import opened Text
  import opened Search

  /** A needle with a character the haystack lacks does not occur in it. */
  lemma MissingChar(haystack: string, needle: string, c: char)
    requires c in needle && c !in haystack
    ensures !Contains(haystack, needle)
  {
    if Contains(haystack, needle) {
      ContainsChars(haystack, needle, c);
    }
  }

  /** A needle that begins with `first` does not occur in `[first] + rest` when `rest` has no
      `first` and the needle is not a prefix. */
  lemma OnlyAtStart(first: char, rest: string, needle: string)
    requires needle != [] && needle[0] == first && first !in rest
    requires !(|needle| <= |rest| + 1 && ([first] + rest)[..|needle|] == needle)
    ensures !Contains([first] + rest, needle)
  {
  }

  /** The poem searched by the test `find_test`, line by line. */
  const PoemLines: seq<string> := [
    "I'm nobody! Who are you?",
    "Are you nobody, too?",
    "Then there's a pair of us - don't tell!",
    "They'd banish us, you know.",
    "",
    "How dreary to be somebody!",
    "How public, like a frog",
    "To tell your name the livelong day",
    "To an admiring bog!"
  ]

  /** The poem as the test writes it: the lines joined by '\n', with no final '\n'. */
  const Poem: string := Join(PoemLines)

  /** No line of the poem holds a '\n' or ends with '\r': the first three. */
  lemma PoemLinesPlainStart()
    ensures forall i :: 0 <= i < 3 ==> '\n' !in PoemLines[i] && !EndsWithCr(PoemLines[i])
  {
    assert '\n' !in PoemLines[0] && '\n' !in PoemLines[1] && '\n' !in PoemLines[2];
  }

  /** The next three. */
  lemma PoemLinesPlainMiddle()
    ensures forall i :: 3 <= i < 6 ==> '\n' !in PoemLines[i] && !EndsWithCr(PoemLines[i])
  {
    assert '\n' !in PoemLines[3] && '\n' !in PoemLines[4] && '\n' !in PoemLines[5];
  }

  /** The last three. */
  lemma PoemLinesPlainEnd()
    ensures forall i :: 6 <= i < 9 ==> '\n' !in PoemLines[i] && !EndsWithCr(PoemLines[i])
  {
    assert '\n' !in PoemLines[6] && '\n' !in PoemLines[7] && '\n' !in PoemLines[8];
  }

  /** The poem splits into its nine lines. */
  lemma PoemLinesSplit()
    ensures Lines(Poem) == PoemLines
  {
    PoemLinesPlainStart();
    PoemLinesPlainMiddle();
    PoemLinesPlainEnd();
    LinesOfJoin(PoemLines);
  }

  /** The third line of the poem begins with "Then". */
  lemma ThenBeginsThirdLine()
    ensures Contains(PoemLines[2], "Then")
  {
    var line := PoemLines[2];
    assert line[..4] == "Then" by {
      assert line[0] == 'T' && line[1] == 'h' && line[2] == 'e' && line[3] == 'n';
    }
    assert OccursAt(line, "Then", 0);
  }

  /** "They'd banish us, you know." has its only 'T' at the start, before "They". */
  lemma ThenNotInFourthLine()
    ensures !Contains(PoemLines[3], "Then")
  {
    assert PoemLines[3] == ['T'] + "hey'd banish us, you know.";
    assert PoemLines[3][3] == 'y';
    OnlyAtStart('T', "hey'd banish us, you know.", "Then");
  }

  /** "To tell your name the livelong day" has its only 'T' at the start, before "To". */
  lemma ThenNotInEighthLine()
    ensures !Contains(PoemLines[7], "Then")
  {
    assert PoemLines[7] == ['T'] + "o tell your name the livelong day";
    assert PoemLines[7][1] == 'o';
    OnlyAtStart('T', "o tell your name the livelong day", "Then");
  }

  /** The first two lines have no 'T'. */
  lemma ThenNotInFirstLines()
    ensures !Contains(PoemLines[0], "Then") && !Contains(PoemLines[1], "Then")
  {
    MissingChar(PoemLines[0], "Then", 'T');
    MissingChar(PoemLines[1], "Then", 'T');
  }

  /** The fifth to seventh lines have no 'T'. */
  lemma ThenNotInMiddleLines()
    ensures !Contains(PoemLines[4], "Then") && !Contains(PoemLines[5], "Then")
    ensures !Contains(PoemLines[6], "Then")
  {
    MissingChar(PoemLines[4], "Then", 'T');
    MissingChar(PoemLines[5], "Then", 'T');
    MissingChar(PoemLines[6], "Then", 'T');
  }

  /** "To an admiring bog!" has no 'h'. */
  lemma ThenNotInLastLine()
    ensures !Contains(PoemLines[8], "Then")
  {
    MissingChar(PoemLines[8], "Then", 'h');
  }

  /** `find_test`: searching the poem for "Then" reports exactly the line that begins with it. */
  lemma FindTest()
    ensures Matching("Then", Lines(Poem), false) == ["Then there's a pair of us - don't tell!"]
  {
    PoemLinesSplit();
    ThenBeginsThirdLine();
    ThenNotInFourthLine();
    ThenNotInEighthLine();
    ThenNotInFirstLines();
    ThenNotInMiddleLines();
    ThenNotInLastLine();
    var q, ls := "Then", PoemLines;
    assert ls[9..] == [];
    MatchingStep(q, ls, false, 8);
    MatchingStep(q, ls, false, 7);
    MatchingStep(q, ls, false, 6);
    MatchingStep(q, ls, false, 5);
    MatchingStep(q, ls, false, 4);
    MatchingStep(q, ls, false, 3);
    MatchingStep(q, ls, false, 2);
    MatchingStep(q, ls, false, 1);
    MatchingStep(q, ls, false, 0);
    assert ls[0..] == ls;
  }

  /** The lines of the text searched by the test `case_insensitive`. */
  const RustLines: seq<string> := ["Rust is awesome", "Testing testing", "Testing rust", "End of file"]

  /** That text as the test writes it. */
  const RustText: string := Join(RustLines)

  /** The text splits into its four lines. */
  lemma RustTextSplit()
    ensures Lines(RustText) == RustLines
  {
    var ls := RustLines;
    assert '\n' !in ls[0] && '\r' !in ls[0];
    assert '\n' !in ls[1] && '\r' !in ls[1];
    assert '\n' !in ls[2] && '\r' !in ls[2];
    assert '\n' !in ls[3] && ls[3] != [];
    LinesOfJoin(RustLines);
  }

  /** "RuSt" lowercases to "rust". */
  lemma RuStLowercase()
    ensures ToLowercase("RuSt") == "rust"
  {
  }

  /** The first and third lines contain "rust" once lowercased. */
  lemma RustFoldedHits()
    ensures Hit(RustLines[0], "RuSt", true) && Hit(RustLines[2], "RuSt", true)
  {
    RuStLowercase();
    var first, third := ToLowercase(RustLines[0]), ToLowercase(RustLines[2]);
    assert first[0..4] == "rust" by {
      assert first[0] == 'r' && first[1] == 'u' && first[2] == 's' && first[3] == 't';
    }
    assert OccursAt(first, "rust", 0);
    assert third[8..12] == "rust" by {
      assert third[8] == 'r' && third[9] == 'u' && third[10] == 's' && third[11] == 't';
    }
    assert OccursAt(third, "rust", 8);
  }

  /** The second and fourth lines have no 'r' or 'R' at all. */
  lemma RustFoldedMisses()
    ensures !Hit(RustLines[1], "RuSt", true) && !Hit(RustLines[3], "RuSt", true)
  {
    RuStLowercase();
    LetterAbsentFolded(RustLines[1], 'r', 'R');
    MissingChar(ToLowercase(RustLines[1]), "rust", 'r');
    LetterAbsentFolded(RustLines[3], 'r', 'R');
    MissingChar(ToLowercase(RustLines[3]), "rust", 'r');
  }

  /** `case_insensitive`: ignoring case, "RuSt" finds the two lines with "Rust" or "rust",
      each reported with its own casing. */
  lemma CaseInsensitiveTest()
    ensures Matching("RuSt", Lines(RustText), true) == ["Rust is awesome", "Testing rust"]
  {
    RustTextSplit();
    RustFoldedHits();
    RustFoldedMisses();
    var q, ls := "RuSt", RustLines;
    assert ls[4..] == [];
    MatchingStep(q, ls, true, 3);
    MatchingStep(q, ls, true, 2);
    MatchingStep(q, ls, true, 1);
    MatchingStep(q, ls, true, 0);
    assert ls[0..] == ls;
  }

  /** On the same text the exact search for "RuSt" finds nothing, as no line has an 'S':
      the two searches differ. */
  lemma CaseSensitiveFindsNothing()
    ensures Matching("RuSt", Lines(RustText), false) == []
  {
    RustTextSplit();
    var q, ls := "RuSt", RustLines;
    MissingChar(ls[0], q, 'S');
    MissingChar(ls[1], q, 'S');
    MissingChar(ls[2], q, 'S');
    MissingChar(ls[3], q, 'S');
    assert ls[4..] == [];
    MatchingStep(q, ls, false, 3);
    MatchingStep(q, ls, false, 2);
    MatchingStep(q, ls, false, 1);
    MatchingStep(q, ls, false, 0);
    assert ls[0..] == ls;
  }
}
