# minigrep, modelled in Dafny

`minigrep` is a small command-line search tool. It takes a query and a file
path from the command line and prints every line of the file that contains
the query. When `env::var("IGNORE_CASE")` succeeds (the variable is set to a
valid Unicode value), the search ignores case. This project models the library behind it, `src/lib.rs`, and
proves properties of the model:

- `Config::build` is `Minigrep.Build`. It takes the argument list and a
  boolean saying whether `env::var("IGNORE_CASE")` succeeds, and returns either a `Config`
  or one of the source's two error messages.
- `search` and `search_case_insensitive` are `Minigrep.Search` and
  `Minigrep.SearchCaseInsensitive`. Both filter the lines of the contents
  through one filter, `Minigrep.KeepMatching`.
- The choice `run` makes between the two searches is `Minigrep.Select`.
- Rust's `str::lines` is `LineSplit.Lines`. Its contract says what the
  splitter does: it returns lines without `\n`, each with the terminator it
  lost (`\n` or `\r\n`, and possibly none on the last line), and gluing the
  lines back to those terminators rebuilds the text exactly.
  `LineSplit.LinesOfJoin` proves the converse, so this is the only such way
  to cut a text into lines.
- `str::contains` with a string pattern is `Text.Contains`. It is proved
  equal to "occurs as a contiguous substring" (`Text.Substring`).
- `to_lowercase` is `Text.ToLower`, which maps only ASCII letters.

Files: `results.dfy` (Option and Result), `text.dfy` (containment and
lower-casing), `lines.dfy` (line splitting), `minigrep.dfy` (filter,
searches, `Config`, `Build`, `Select`) and `examples.dfy` (the doc and test
examples of `src/lib.rs`).

Points where the code's behaviour is easy to get wrong:

- `Build` fails with one of the source's two messages, "Didn't get a query
  string" or "Didn't get a file path".
- An empty query or an empty path still builds a `Config`; nothing checks
  that the arguments are non-empty.
- `lines()` drops a `\r` that comes just before a `\n`. A `\r` at the very
  end of the text, with no `\n` after it, stays in the last line. This is how
  `str::lines` behaves in current Rust.

## Model

| member | source | states |
|---|---|---|
| LineSplit.Lines | src/lib.rs:73 | Splitting gives no lines exactly when the text is empty. The lines hold no `\n`. Each line is paired with the terminator it lost: `\n`, or `\r\n`, or none for a non-empty last line. Re-joining each line with its terminator gives the original text. |
| LineSplit.LinesOfJoin | src/lib.rs:73 | Converse of the above: splitting any well-formed join of lines and terminators gives back exactly those lines and those terminators. |
| LineSplit.LineCount | src/lib.rs:73 | There is one line per `\n`, plus one when the text ends without a `\n`. So an empty text has no lines, and a trailing line ending adds no empty line. |
| LineSplit.LinesCons | src/lib.rs:73 | A text that starts with a line holding no `\n` and not ending in `\r`, then a `\n`, splits into that line followed by the lines of the rest. |
| Text.Contains | src/lib.rs:74 | The containment test is true exactly when the query occurs in the line as a contiguous run of characters. This includes the empty query, which occurs everywhere. |
| Text.SubstringLower | src/lib.rs:94-97 | If a query occurs in a line, its lower-cased form occurs in the lower-cased line. |
| Text.AbsentChar | src/lib.rs:74 | A query that holds a character the line lacks does not occur in that line. |
| Minigrep.KeepMatching | src/lib.rs:72-75 | The filter returns no more lines than it is given, and only lines it was given. A given line is in the result exactly when it passes the test. |
| Minigrep.KeepMatchingInOrder | src/lib.rs:72-75 | Take any ascending list of exactly the positions whose lines pass the test. The filter's result is the lines at those positions, in that order and with unchanged text. |
| Minigrep.KeepAll | src/lib.rs:74 | If every line passes the test, the filter returns all the lines unchanged. |
| Minigrep.Search | src/lib.rs:71-76 | Every returned line is a line of the contents. A line of the contents is returned exactly when the query occurs in it. There are never more results than lines. |
| Minigrep.SearchInFileOrder | src/lib.rs:71-76 | The result of `search` is the lines of the contents at the positions where the query occurs, in file order, with unchanged text. |
| Minigrep.SearchCaseInsensitive | src/lib.rs:93-99 | Every returned line is a line of the contents. A line is returned exactly when its lower-cased form contains the lower-cased query. There are never more results than lines. |
| Minigrep.SearchCaseInsensitiveInFileOrder | src/lib.rs:93-99 | The result is the original, un-lowercased lines at the positions where the lower-cased line contains the lower-cased query, in file order. |
| Minigrep.EmptyQueryReturnsAllLines | src/lib.rs:71-99 | With an empty query, both searches return every line of the contents, unchanged and in order. |
| Minigrep.SearchWithinCaseInsensitive | src/lib.rs:71-99 | Every line the case-sensitive search returns is also returned by the case-insensitive search. |
| Minigrep.QueryCaseIrrelevant | src/lib.rs:94 | The case-insensitive search gives the same result for a query and for its lower-cased form. |
| Minigrep.Build | src/lib.rs:16-36 | Fails with "Didn't get a query string" exactly when there are fewer than 2 arguments. Fails with "Didn't get a file path" exactly when there are exactly 2. Succeeds exactly when there are 3 or more. On success the query is `args[1]`, the path is `args[2]`, and `ignoreCase` is the flag saying whether `env::var("IGNORE_CASE")` succeeds (the variable is set to a valid Unicode value). |
| Minigrep.BuildRecoversConfig | src/lib.rs:16-35 | Take a program name, then a config's query and path, then any further arguments. Building from that list gives back exactly that config, so the extra arguments are ignored. |
| Minigrep.Select | src/lib.rs:43-47 | The lines `run` prints are lines of the contents. A line is printed exactly when it matches: case-insensitively if `ignoreCase` is set, case-sensitively otherwise. |
| Minigrep.BuildThenSelect | src/lib.rs:29-47 | From a command line with a query and a path, `run` uses `search_case_insensitive` on `args[1]` when `env::var("IGNORE_CASE")` succeeds (the variable is set to a valid Unicode value), and `search` otherwise. |
| MinigrepExamples.CaseSensitiveExample | src/lib.rs:106-115 | `search("ember", "Gym memberships\nare getting\nway too expensive.\nEmber.")` is `["Gym memberships"]`. |
| MinigrepExamples.CaseInsensitiveExample | src/lib.rs:118-128 | `search_case_insensitive("TOo", "Gym memberships\nAre getting\nWay too expensive.")` is `["Way too expensive."]`. |
| MinigrepExamples.CaseInsensitiveDocExample | src/lib.rs:83-91 | The same holds for the documentation's four-line text ending in "Ember.". |
| MinigrepExamples.MissingArgumentExamples | src/lib.rs:19-27 | A command line with only the program name fails with the query message. One with a query but no path fails with the file-path message. |

## Left out

- Reading the file in `run` (`fs::read_to_string` and the `?` that passes its error on) is file I/O. The file's text is the `contents` parameter of `Select`.
- The `println!` loop in `run` is output. `Select` returns the lines it would print, in order.
- The `env::var("IGNORE_CASE")` lookup is environment access. `Build` takes its result as the boolean `ignoreCaseSet`.
- Text.ToLower: lower-cases only ASCII `A`-`Z`. Rust's `to_lowercase` applies the full Unicode mapping. Some of those mappings change a string's length, and some depend on context: a word-final `Σ` becomes `ς`, while a lone `Σ` becomes `σ`. The case-insensitive results are therefore proved only for the ASCII case mapping.
- Minigrep.SearchCaseInsensitive: inherits the ASCII-only lower-casing above.
- Text.SubstringLower: holds for the ASCII mapping only. Under Rust's `to_lowercase` it fails: `"Σ"` occurs in `"ΑΣ"`, but `"Σ".to_lowercase()` is `"σ"` and `"ΑΣ".to_lowercase()` is `"ας"`, which does not contain `"σ"`.
- Minigrep.SearchWithinCaseInsensitive: holds for the ASCII mapping only. On the same input the program breaks it: `search("Σ", "ΑΣ")` returns `["ΑΣ"]`, while `search_case_insensitive("Σ", "ΑΣ")` returns no lines.
- The `Box<dyn Error>` and `&'static str` error types become a plain `Result` with a message string.
- Borrowed slices versus owned strings: a returned line is a string equal to the line of the contents it came from.
- Rust strings are UTF-8 bytes, and the model treats text as a sequence of characters. `contains` and `lines` give the same answers either way for valid UTF-8.
