# GrepTool in Dafny

GrepTool is a small command-line search utility. It is given a query and the path of a
text file, and prints every line of the file that contains the query. The environment
variable `IGNORE_CASE` switches to a search that ignores letter case. This project models
the library crate `src/lib.rs` and proves properties of the model:

- `Config` covers the `Parser` configuration and `Parser::build`, which builds it from the
  argument list.
- `Text` covers the three operations on text the searches rely on:
  - `str::contains`, as `Contains`;
  - `str::to_lowercase`, as `ToLowercase`, which applies `Lower` to each character;
  - `str::lines`, as `Lines`.
- `Search` covers `search` and `insensitive_search` as methods with loops, and the
  dispatch done by `run`. The methods are proved against one specification function,
  `Matching`: the filter that keeps, in order and with repeats, the lines that are hits
  for the query.
- `Scenarios` covers the crate's two unit tests, `find_test` and `case_insensitive`,
  stated as lemmas about that specification.
- `Wrappers` holds the `Result` type, after Rust's `Result<T, E>`.

Points where the code's behaviour is easy to misread:

- `Parser::build` reports one error, "Error: Not enough arguments provided", for every
  list of fewer than three arguments. A missing query and a missing source path are not
  told apart (`Config.BuildMissingArgumentsAlike`).
- The `ignoreCaseSet` parameter of `Config.Build` stands for
  `env::var("IGNORE_CASE").is_ok()`. That call is false when the variable is unset, and
  also when its value is not valid Unicode.
- Line splitting follows `str::lines`:
  - a `'\r'` is removed only when it comes just before a `'\n'`;
  - no empty line follows a final `'\n'`;
  - the empty text has no lines.

## Model

| member | source | states |
|---|---|---|
| Config.Build | src/lib.rs:13-25 | The build fails exactly when there are fewer than three arguments, and then the error is the single "not enough arguments" message. Otherwise the query is argument 1, the source path is argument 2, and the case toggle is the value read from the environment. |
| Config.BuildCommandLine | src/lib.rs:13-25 | Building from `<program> <query> <source>` gives back the configuration with that query and source path. |
| Config.BuildIgnoresExtraArguments | src/lib.rs:15-24 | Arguments after the source path do not change the outcome. |
| Config.BuildMissingArgumentsAlike | src/lib.rs:15-17 | A missing query and a missing source path give the same error. |
| Search.Search | src/lib.rs:50-61 | The loop over the lines of `source` returns exactly `Matching(query, Lines(source), false)`. That is the lines containing `query`, in order, each occurrence kept. |
| Search.InsensitiveSearch | src/lib.rs:64-77 | Lowercasing the query once, then testing each lowercased line, returns exactly `Matching(query, Lines(source), true)`. The lines reported keep their own case. |
| Search.Run | src/lib.rs:29-47 | A failed file read is passed on unchanged and nothing is printed. Otherwise the lines printed are the result of the case-insensitive search when the toggle is set, and of the exact search when it is not. |
| Search.Matching | src/lib.rs:54-58 | Every line in the result is a hit, and the result is no longer than the input. |
| Search.MatchingMembers | src/lib.rs:54-58 | A line is in the result if and only if it is one of the input lines and a hit. |
| Search.MatchingKeepsOrder | src/lib.rs:54-58 | The result is a subsequence of the lines: their order is kept. |
| Search.MatchingMultiplicity | src/lib.rs:54-58 | A hit occurs in the result as often as in the input, and a line that is not a hit never occurs. |
| Search.MatchingAppend | src/lib.rs:54-58 | Filtering two runs of lines one after the other gives the two filtered runs concatenated. |
| Search.MatchingAll | src/lib.rs:54-58 | Every line is kept if and only if every line is a hit. |
| Search.MatchingNone | src/lib.rs:54-58 | Nothing is kept if and only if no line is a hit. |
| Search.EmptyQueryMatchesEveryLine | src/lib.rs:55 | The empty query returns every line, in both modes. |
| Search.LongQueryMatchesNothing | src/lib.rs:55 | A query longer than every line returns nothing, in both modes. |
| Search.ExactHitsAreFoldedHits | src/lib.rs:50-77 | The lines the exact search finds are, in the same order, a subsequence of those the case-insensitive search finds. |
| Search.FoldedIsExactOnLowercase | src/lib.rs:67-72 | Lowercasing what the case-insensitive search reports gives what the exact search of the lowercased query over the lowercased lines reports. |
| Search.FoldedIgnoresQueryCase | src/lib.rs:67 | Two queries with the same lowercase form find the same lines when case is ignored. |
| Search.MatchesAreSlices | src/lib.rs:54-56 | Every line either search reports is a contiguous piece of the searched text. |
| Search.Hit | src/lib.rs:55 | A line is a hit when it contains the query, or, with case ignored, when its lowercase form contains the query's lowercase form. A hit's line is at least as long as the query, the empty query is a hit for every line, and every character of an exact hit's query occurs in the line. |
| Text.Contains | src/lib.rs:55 | The needle occurs at some index of the haystack. A contained needle is no longer than the haystack, the empty needle is always contained, and so are a prefix and a suffix. |
| Text.ContainedCharsOccur | src/lib.rs:55 | When a string is contained in another, every one of its characters occurs in the other. |
| Text.ToLowercase | src/lib.rs:67-71 | The lowercase form has the same length and no upper-case letter. Each upper-case letter becomes its lower-case partner at the same index, and every other character is kept. |
| Text.Lines | src/lib.rs:54 | No line holds a `'\n'`. The text has no lines if and only if it is empty. There are no more lines than characters. |
| Text.NewlineIndex | src/lib.rs:54 | The index found is the first `'\n'` of the text, or its length when there is none. |
| Text.NewlineIndexUnique | src/lib.rs:54 | That index is the only one that is either the end of the text or a `'\n'` with no `'\n'` before it. |
| Text.LinesOfOneLine | src/lib.rs:54 | A non-empty text without `'\n'` is one line. |
| Text.LinesAfterLine | src/lib.rs:54 | A line, a `'\n'`, then more text split into the line, with a `'\r'` before the `'\n'` removed, followed by the lines of the rest. |
| Text.LinesOfJoin | src/lib.rs:54 | Splitting lines joined by `'\n'` gives the lines back. This holds when no line holds a `'\n'`, no line but the last ends with `'\r'`, and the last line is not empty. |
| Text.LinesOfUnlines | src/lib.rs:54 | Splitting lines that each end with `'\n'` gives the lines back, when no line holds a `'\n'` or ends with `'\r'`. |
| Text.UnlinesOfLines | src/lib.rs:54 | For a text with no `'\r'` directly before a `'\n'`, writing each line back followed by `'\n'` gives the text back, ending in `'\n'` when it did not. |
| Text.FinalNewlineOptional | src/lib.rs:54 | Adding a final `'\n'` to a non-empty text that ends with neither `'\n'` nor `'\r'` adds no line. |
| Text.LastLineTerminated | src/lib.rs:54 | A single line without a final `'\r'` is the same one line with or without a `'\n'` after it. |
| Text.LinesAreSlices | src/lib.rs:54 | Every line is a contiguous piece of the text it was split from. |
| Text.ContainsEmpty | src/lib.rs:55 | Every string contains the empty string. |
| Text.ContainsSelf | src/lib.rs:55 | Every string contains itself. |
| Text.NotContainsLonger | src/lib.rs:55 | A string never contains a longer one. |
| Text.ContainsChars | src/lib.rs:55 | Every character of a contained string occurs in the containing one. |
| Text.ContainsTransitive | src/lib.rs:55 | A piece of a piece of a string is a piece of the string. |
| Text.Lower | src/lib.rs:67-71 | The result is never an upper-case letter. An upper-case letter becomes its lower-case partner, and every other character is unchanged. |
| Text.ToLowercaseIdempotent | src/lib.rs:67-71 | Lowercasing twice is lowercasing once. |
| Text.ToLowercaseSlice | src/lib.rs:71 | Lowercasing a slice gives the same slice of the lowercased string. |
| Text.LetterAbsentFolded | src/lib.rs:71 | A letter absent from a string in both cases is absent from its lowercase form. |
| Text.ContainsToLowercase | src/lib.rs:67-71 | A string that contains another still contains it after both are lowercased. |
| Scenarios.PoemLinesSplit | src/lib.rs:88-97 | The poem of `find_test` splits into its nine lines. |
| Scenarios.FindTest | src/lib.rs:86-102 | Searching that poem for "Then" gives exactly the one line "Then there's a pair of us - don't tell!". |
| Scenarios.RustTextSplit | src/lib.rs:107 | The text of `case_insensitive` splits into its four lines. |
| Scenarios.CaseInsensitiveTest | src/lib.rs:105-111 | Ignoring case, "RuSt" finds exactly "Rust is awesome" and "Testing rust", each in its own casing. |
| Scenarios.CaseSensitiveFindsNothing | src/lib.rs:50-61 | On that text the exact search for "RuSt" finds nothing: the two modes differ. |

## Left out

- `src/main.rs` is not part of this model. It collects the arguments, prints the error
  messages to standard error and exits with status -1.
- Search.Run: reading the file and printing are I/O. The outcome of
  `fs::read_to_string` is a parameter, and the lines `println!` would print are returned
  in the `Ok` value. The error is passed on as a message.
- Config.Build: the environment lookup is I/O. Whether `env::var("IGNORE_CASE")` succeeds
  is a parameter.
- Text.Lower: folds only the ASCII letters A-Z. Rust's `to_lowercase` uses the full Unicode
  mappings, including ones that change a string's length. Search.InsensitiveSearch and
  everything about the case-insensitive mode hold for this ASCII folding only.
- Search.Search, Search.InsensitiveSearch: Rust returns slices borrowed from the source
  text. The model returns the line values, and lifetimes are not modelled.
  Search.MatchesAreSlices states that each reported line is a piece of the text.
- Text.UnlinesOfLines: stated for texts with no `'\r'` directly before a `'\n'`. The
  split drops such a `'\r'`, so it cannot be written back. Any other `'\r'` is kept.
- Scenarios: the tests' texts are written as their lines joined by `'\n'` (`Text.Join`),
  not as one string literal.
