# Word histogram: aggregation and ranking

A model of the aggregator in `1-regexes/histogram_main.cpp`. The program pulls
tokens from a flex scanner until it sees `NONE`. It adds every `NUMBER` to a
running sum. It counts every `WORD` in a `std::unordered_map<std::string,
unsigned>` and deletes the string the scanner allocated for it. At the end it
copies the table into a vector and sorts it with the `sort_order` lambda:
higher count first, equal counts by ascending word. Then it prints one
`[word] count` line per entry.

The project has four modules, one per part of `main`:

- `Tokens` (`tokens.dfy`): the token stream. A token is `End`, `Number(v)` or
  `Word(payload)`. The payload is `None` for a null pointer, or a `WordRef`
  that pairs the string's address with its text. `FirstEnd` and `Drained` give
  the place where the loop stops and the tokens it acts on.
- `Aggregator` (`aggregator.dfy`): the consumption loop as the method
  `Consume`, proved against the functions `Tally`, `Total` and `Payloads`. The
  lemmas then tie those functions to the word occurrences and to the tokens.
  Counts are `unsigned`. So they are modelled as `u32`, and `histogram[w] += 1`
  wraps at 2^32, exactly as the C++ code does.
- `Ranking` (`ranking.dfy`): `std::string`'s `operator<` (`Less`) and
  `sort_order` (`Before`), with the lemmas that `Before` is a strict total
  order. `Sort` is an in-place sort of an `array<Entry>`. Its contract states
  sortedness plus permutation. `SortedUnique` shows that this contract fixes
  the result.
- `Report` (`report.dfy`): the vector built from the table (`BuildEntries`),
  the row format (`Row`) with a parser that reads a row back (`ParseRow`), the
  output loop (`Emit`), the whole run (`Run`), and the worked examples.

## Model

| member | source | states |
|---|---|---|
| Tokens.FirstEnd | 1-regexes/histogram_main.cpp:25-33 | the loop stops at an `End`, and no `End` comes before it |
| Tokens.Drained | 1-regexes/histogram_main.cpp:25-54 | the tokens the loop acts on hold no `End`, and the first `End` of the stream follows them |
| Aggregator.Increment | 1-regexes/histogram_main.cpp:45 | `unsigned += 1`: one more, except that 2^32 - 1 wraps to 0 |
| Aggregator.Count | 1-regexes/histogram_main.cpp:45 | `histogram[w] += 1` adds `w` if it is missing. It raises the count of `w` by one (wrapping at 2^32), or sets it to 1 for a new key. Every other entry keeps its count |
| Aggregator.Record | 1-regexes/histogram_main.cpp:36-48 | a WORD with a non-null payload counts its text; a WORD with a null payload and a NUMBER leave the table as it was |
| Aggregator.Tally | 1-regexes/histogram_main.cpp:22-54 | the table the loop builds from a token sequence, token by token from an empty table. Each token adds at most one key, so the table has no more entries than there are tokens |
| Aggregator.Payloads | 1-regexes/histogram_main.cpp:43-47 | the payloads the loop deletes, in stream order. There are no more of them than tokens, and each one comes from a WORD token of the stream that carries it |
| Aggregator.Total | 1-regexes/histogram_main.cpp:23-38 | the sum of the NUMBER values, added left to right from 0. A stream without NUMBER tokens leaves it at 0 |
| Aggregator.WordsArePayloadTexts | 1-regexes/histogram_main.cpp:44-46 | the texts counted are exactly the texts of the deleted payloads, in the same order |
| Aggregator.TallyCountsWords | 1-regexes/histogram_main.cpp:22-54 | after the loop, the table's keys are exactly the texts of the non-null WORD payloads. Each count is the number of occurrences of that exact text, modulo 2^32 |
| Aggregator.TallyExact | 1-regexes/histogram_main.cpp:45 | below 2^32 occurrences, a count equals the number of occurrences, and a word has no entry exactly when it never occurs |
| Aggregator.PayloadsReleasedOnce | 1-regexes/histogram_main.cpp:43-47 | each payload is deleted once per WORD token that carried it, and nothing else is deleted, in particular no null pointer |
| Aggregator.TotalAppend | 1-regexes/histogram_main.cpp:37 | the exact sum over a stream is the sum over its two parts. This holds of the `real` abstraction only, not of the program's rounded `double` additions |
| Aggregator.Consume | 1-regexes/histogram_main.cpp:20-54 | pulls exactly the tokens up to and including the first `End`. Ends with the table, sum and deletions of the tokens before it. An empty stream leaves the table empty |
| Ranking.Less | 1-regexes/histogram_main.cpp:71 | `std::string`'s `<`: true exactly when, at some position, the two strings agree before it and there the first string ends while the second goes on, or has the lesser character |
| Ranking.LessIrreflexive | 1-regexes/histogram_main.cpp:71 | no string is less than itself |
| Ranking.LessTransitive | 1-regexes/histogram_main.cpp:71 | string `<` is transitive |
| Ranking.LessTotal | 1-regexes/histogram_main.cpp:71 | of two different strings exactly one is less than the other |
| Ranking.Before | 1-regexes/histogram_main.cpp:64-72 | `sort_order(a, b)` holds exactly when `a` has the higher count, or the counts are equal and `a`'s word is less |
| Ranking.BeforeIrreflexive | 1-regexes/histogram_main.cpp:64-72 | `sort_order(a, a)` is false |
| Ranking.BeforeTransitive | 1-regexes/histogram_main.cpp:64-72 | `sort_order` is transitive |
| Ranking.BeforeAsymmetric | 1-regexes/histogram_main.cpp:64-72 | `sort_order(a, b)` excludes `sort_order(b, a)` |
| Ranking.BeforeTotal | 1-regexes/histogram_main.cpp:64-72 | for different entries, so in particular for different words, exactly one of `sort_order(a, b)` and `sort_order(b, a)` holds |
| Ranking.RankedOrder | 1-regexes/histogram_main.cpp:64-75 | in a sorted vector, each entry either has a higher count than a different entry after it, or the same count and a lesser word |
| Ranking.SortedUnique | 1-regexes/histogram_main.cpp:75 | two sorted arrangements of the same entries are equal. So the result does not depend on the input order, and re-sorting a sorted vector changes nothing |
| Ranking.LeastFrom | 1-regexes/histogram_main.cpp:75 | finds a place in the unsorted part that no entry there goes before (one step of the sort) |
| Ranking.Sort | 1-regexes/histogram_main.cpp:75 | after `std::sort` the array is sorted by `sort_order` and is a permutation of its old contents |
| Report.BuildEntries | 1-regexes/histogram_main.cpp:60-61 | the vector holds each (word, count) entry of the table exactly once |
| Report.RankingUnique | 1-regexes/histogram_main.cpp:60-75 | a histogram has exactly one ranked report, whatever its iteration order |
| Report.RankingStrict | 1-regexes/histogram_main.cpp:60-75 | in the ranked report no word appears twice. Each entry has a higher count than any later one, or the same count and a lesser word |
| Report.Decimal | 1-regexes/histogram_main.cpp:78 | a count prints as a non-empty string of digits without a leading zero |
| Report.Row | 1-regexes/histogram_main.cpp:78 | a line is `[`, the word unchanged, `]`, a space, then the count's digits, and nothing else |
| Report.DecimalRoundTrip | 1-regexes/histogram_main.cpp:78 | the printed digits read back as the count |
| Report.RowRoundTrip | 1-regexes/histogram_main.cpp:77-78 | each `[word] count` line reads back as its entry, whatever characters the word holds |
| Report.Emit | 1-regexes/histogram_main.cpp:77-78 | one line per entry, in report order, each the `[word] count` text of its entry |
| Report.Run | 1-regexes/histogram_main.cpp:20-81 | the sum of the NUMBER values before the first `End`. The report is the ranking of the word table, printed line by line |
| Report.ExampleCountsAndSum | 1-regexes/histogram_main.cpp:20-81 | the stream `a b 1.5 a 2.25` has sum 3.75 and prints `[a] 2` then `[b] 1` |
| Report.ExampleTie | 1-regexes/histogram_main.cpp:64-75 | for the stream `z a`, both counts are 1, so the report lists `a` before `z` |
| Report.ExampleEmpty | 1-regexes/histogram_main.cpp:20-81 | a stream that holds only `End` has sum 0 and an empty report |

## Left out

- The scanner `yylex()`, the global `yylval` and `histogram.hpp`, which flex generates: they are not part of this model. The stream is a `seq<Token>` given as input.
- Aggregator.Consume: requires the stream to contain an `End`. The scanner returns `NONE` at the end of its input. Without it the C++ loop would not end, and the model leaves that case out.
- Aggregator.Consume: the sum is the exact `real` sum of the NUMBER values, taken in stream order. `double` rounding, and the way it depends on the order of addition, is not modelled.
- Report.Run: it does not produce the first output line, the sum printed with `std::fixed` and `setprecision(3)`. Floating-point formatting is not modelled.
- The hashing of `std::unordered_map` and its iteration order: the table is a Dafny `map`, and `BuildEntries` takes its keys in an unspecified order.
- The algorithm inside `std::sort`: `Sort` is a selection sort, specified by sortedness and permutation, which is all the program relies on.
- `std::cout` and the newline after each line: lines are returned as a sequence of strings.
- The `default: assert(0)` branch: the token datatype has exactly three cases, so the branch cannot be reached.
- Strings are sequences of Unicode scalar values compared by code point. For UTF-8 text this is the byte order of `std::string`'s comparison. A `std::string` whose bytes are not valid UTF-8 has no counterpart in the model.
- The heap: a deleted string is recorded in a ghost log, `released`. The allocator, and address reuse after `delete`, are not modelled.
- A null WORD payload is not deleted. The code deletes only non-null pointers (`delete` of null would be a no-op anyway), and the model follows the code.
