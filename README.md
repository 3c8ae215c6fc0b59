# bincom-prelim in Dafny

A verified model of the computational core of the bincom-prelim scripts:

- **Colour scraper** (`colors.py`). `parse_html` reads the rows of an HTML table of shirt colours and counts each colour. `calculate_statistics` derives five values from those counts:
  - the most worn colour;
  - the probability of red;
  - a "mean" colour and a "median" colour, both picked by position in the count-sorted entries;
  - the sample variance of the counts.
- **Recursive search** (`recursive_search.py`): a linear first-occurrence search written as recursion on the position.
- **"Fibonacci" sum** (`fibanocci_sum.py`): a three-variable loop. As written, it adds powers of two rather than Fibonacci numbers.
- **Random binary number** (`random_gen.py`): a four-digit binary string drawn at random, and its decimal value.

Layout, one module per file:

| file | module | what it holds |
|---|---|---|
| `outcomes.dfy` | `Outcomes` | the `Result` type used for the programs' exceptions |
| `text.dfy` | `Text` | `str.strip()`, `str.replace('\n', '')`, `str.split(', ')` and their properties |
| `color_tally.dfy` | `ColorTally` | `parse_html` as nested loops over rows and tokens (`ParseHtml`), its specification `Tally`, and lemmas about the table it returns |
| `color_statistics.dfy` | `ColorStatistics` | `calculate_statistics` and the meaning of each of its five values |
| `recursive_search.dfy` | `RecursiveSearch` | `recursive_search` |
| `powers.dfy` | `Powers` | powers of two |
| `fibanocci_sum.dfy` | `FibonacciSum` | the loop as written, generalised to `n` turns, and the intended Fibonacci sum |
| `random_gen.dfy` | `RandomBinary` | generation from arbitrary draws, `int(s, 2)`, and the inverse conversion |

Modelling choices:

- **HTML input.** The document's HTML layer is replaced by its content: a sequence of rows, each the texts of its cells.
- **The frequency table.** It is modelled as a `Table`, which holds:
  - the keys, in the order the dictionary first received them (Python dictionaries keep insertion order);
  - a map from each key to its count.
- **`parse_html` builds the table in place.** `ColorTally.ParseHtml` keeps `parse_html`'s nested loops. The `+= 1` updates change a local key sequence and count map.
- **Ties follow the code.** They are settled as the code settles them:
  - `max` keeps the first key with the largest count;
  - `sorted` is stable, so entries with equal counts keep dictionary order.

  An alphabetical tie-break would pick different colours on ties; the model follows the code's insertion order.
- **Exact arithmetic.**
  - The probability is an exact real quotient.
  - The variance is computed exactly as Σ(n·x − Σx)² / (n²·(n − 1)). `ScaledDeviation` proves that each term divided by n² is (x − x̄)², so the whole is Σ(x − x̄)² / (n − 1); the summed identity over the reals is not stated as a lemma.
- **`calculate_statistics` errors.** Its exceptions are `Err` values, checked in the order the dictionary literal evaluates its entries:
  - `max` of an empty table;
  - division by a zero total;
  - `variance` of a single count.
- **The "mean" and "median" colours are positions, not averages.**
  - The "mean" colour is the entry at position `n // 2` of the sorted entries. It is not an arithmetic mean.
  - The "median" colour is the entry at position `n // 2` when `n` is odd, and `n // 2 - 1` when `n` is even. For even `n` this is the lower middle entry.

  The model keeps these positional picks under the source's names.

## Model

| member | source | states |
|---|---|---|
| Text.Strip | colors.py:27 | the stripped text has no whitespace at either end and is no longer than the input |
| Text.StripShape | colors.py:27 | `strip()` keeps one contiguous piece of the text and cuts only whitespace from either side |
| Text.StripChars | colors.py:27 | every character of the stripped text comes from the input |
| Text.StripEmpty | colors.py:27 | a text strips to "" exactly when it is all whitespace |
| Text.StripTrimmed | colors.py:29 | stripping a text without whitespace ends leaves it unchanged, so stripping twice is stripping once |
| Text.DeleteNewlines | colors.py:27 | the result contains no newline and is no longer than the input |
| Text.DeleteNewlinesKeeps | colors.py:27 | deleting newlines keeps every non-newline character exactly as often as it occurs (equal multisets, newlines removed), and leaves a newline-free text unchanged |
| Text.DeleteNewlinesAppend | colors.py:27 | deletion works piece by piece and in order: the result for a + b is the result for a followed by the result for b; a newline becomes "" and any other character stays |
| Text.Split | colors.py:28 | splitting on ", " always yields at least one piece |
| Text.JoinSplit | colors.py:28 | joining the pieces with ", " gives back the original text |
| Text.SplitPiecesHaveNoSeparator | colors.py:28 | no piece contains ", " |
| Text.SplitChars | colors.py:28 | every character of every piece comes from the text |
| ColorTally.CellColors | colors.py:27-29 | a second cell yields one colour per ", "-separated piece, at least one |
| ColorTally.StripEach | colors.py:28-29 | `color.strip()` on each piece: one stripped token per piece, in order |
| ColorTally.CellColorsClean | colors.py:27-29 | every colour token of a cell has no whitespace ends and no newline |
| ColorTally.BlankCell | colors.py:27-29 | an empty or all-whitespace cell yields exactly the colour "" |
| ColorTally.Tally | colors.py:22-31 | the table is produced exactly when every row has a second cell; otherwise the error names the first row without one |
| ColorTally.TallyFailsAt | colors.py:26-27 | if the rows before row i all have a second cell and row i does not, parsing fails at row i |
| ColorTally.TallyNextRow | colors.py:26-29 | reading one more row with a second cell counts that cell's colours into the table built so far |
| ColorTally.ParseHtml | colors.py:22-31 | the nested loops that update the dictionary in place return exactly `Tally(rows)` |
| ColorTally.Bump | colors.py:29 | `color_set[color] += 1` raises that colour's count by one (from 0 when new), appends a new colour to the keys, and changes no other count |
| ColorTally.BumpAllAppend | colors.py:28-29 | counting one token sequence and then another is counting their concatenation |
| ColorTally.TallyCountsColors | colors.py:26-29 | with every row well formed, the table counts all colour tokens of the document, row by row, into an empty dictionary |
| ColorTally.ColorsPerRow | colors.py:26-28 | every row contributes at least one token |
| ColorTally.ColorsClean | colors.py:27-29 | no token of the document has whitespace ends or a newline |
| ColorTally.BumpCounts | colors.py:29 | one `+= 1` keeps the table in step with the tokens counted so far: same keys, occurrence counts, total = number of tokens |
| ColorTally.CountedTable | colors.py:22-29 | counting tokens into an empty dictionary gives each token its number of occurrences, positive counts, and a total equal to the number of tokens |
| ColorTally.CountedOrder | colors.py:22-29 | the dictionary's keys stand in the order of their first occurrence among the tokens |
| ColorTally.ParseHtmlTable | colors.py:22-31 | the returned table has distinct keys, positive counts, keys = the tokens, each count = its occurrences, clean keys, first-occurrence order, total = number of tokens ≥ number of rows, and is empty exactly when there are no rows |
| ColorTally.OnlySecondCellMatters | colors.py:27 | two documents whose rows agree on having, and on the text of, their second cell give the same result |
| ColorStatistics.Items | colors.py:40-41 | `color_set.items()` lists one entry per key, in dictionary order, each with that key's count |
| ColorStatistics.Values | colors.py:40 | `list(color_set.values())` lists the counts of the entries, in the same order |
| ColorStatistics.TotalIsSumOfValues | colors.py:40-44 | `sum(values)` is the table's total, the sum of its counts |
| ColorStatistics.FirstMaxIndex | colors.py:43 | the chosen entry has the largest count, and every earlier entry has a strictly smaller count |
| ColorStatistics.MostWornColor | colors.py:43 | `most_worn_color` is a key whose count is at least every other count, and it comes no later than any key with the same count |
| ColorStatistics.ProbabilityRed | colors.py:44 | the probability fails (zero division) exactly on a non-empty table with total 0 |
| ColorStatistics.ProbabilityRedBounds | colors.py:44 | on a table with positive counts, the probability of red exists, lies in [0, 1], and is 0 exactly when "RED" is not a key |
| ColorStatistics.ProbabilityOfRed | colors.py:44 | whenever the statistics exist, `probability_red` lies in [0, 1] and is 0 exactly when "RED" is absent or has count 0 |
| ColorStatistics.SortByCount | colors.py:41 | `sorted(..., key=count)` returns as many entries as it is given, ascending by count, and a permutation of them; `SortByCountIsStableSort` adds that equal counts keep dictionary order |
| ColorStatistics.InsertByCountPermutes | colors.py:41 | inserting one entry adds exactly that entry |
| ColorStatistics.InsertByCountSorted | colors.py:41 | inserting into an ascending sequence keeps it ascending by count |
| ColorStatistics.InsertByCountStable | colors.py:41 | an inserted entry goes after the entries of its own count |
| ColorStatistics.SortByCountIsStableSort | colors.py:41 | the sorted entries are ascending by count, a permutation of the items, and entries of equal count keep dictionary order |
| ColorStatistics.SortedAgreeingEqual | colors.py:41 | two ascending sequences with the same entries of each count, in the same order, are equal |
| ColorStatistics.StableSortIsUnique | colors.py:41 | every stable ascending sort of the items is `SortByCount(items)`, whatever algorithm produced it |
| ColorStatistics.MeanIndex | colors.py:45 | `n // 2` is in bounds and is a middle position: at most one more entry before it than after it |
| ColorStatistics.MedianIndex | colors.py:46 | the median position is in bounds and equals the mean position when n is odd, or one less when n is even |
| ColorStatistics.MiddleColors | colors.py:41-46 | the "mean" and "median" colours are the entries at those positions of any stable ascending sort; they are keys; the "median" count is at most the "mean" count; they coincide for odd n |
| ColorStatistics.Variance | colors.py:47 | the sample variance is non-negative |
| ColorStatistics.ScaledDeviation | colors.py:47 | each term (n·x − Σx)² of the exact integer form, divided by n², is the squared deviation (x − x̄)² from the mean x̄ = Σx / n |
| ColorStatistics.VarianceZeroIffEqual | colors.py:47 | the variance is 0 exactly when all values are equal |
| ColorStatistics.VarianceOfCounts | colors.py:47 | `variance` is non-negative and 0 exactly when every colour has the same count |
| ColorStatistics.CalculateStatistics | colors.py:40-48 | the statistics exist exactly when there are at least two keys and a positive total; an empty table fails in `max`; a non-empty table with total 0 fails dividing by `sum(values)`; a single colour with a positive count fails in `variance` |
| ColorStatistics.StatisticsOfParsedTable | colors.py:22-48 | on a parsed table the statistics exist exactly when at least two distinct colours were read; no rows fail in `max`; a single colour fails in `variance` |
| RecursiveSearch.Search | recursive_search.py:1-9 | -1 exactly when the target is not at or after `index`; otherwise an in-bounds position at or after `index` holding the target, with no earlier occurrence from `index` on |
| RecursiveSearch.SearchWholeList | recursive_search.py:1-9 | from the default start, -1 exactly when the target is not in the list, otherwise its first occurrence |
| RecursiveSearch.SearchSkipsMisses | recursive_search.py:6-9 | starting the search later, past positions that do not hold the target, gives the same result |
| FibonacciSum.SumLoopAsWritten | fibanocci_sum.py:3-10 | after n turns of the loop as written, b = 2^n, a = 2^(n-1) (0 before the first turn), and sum = 2^(n-1) - 1 (0 before the first turn) |
| FibonacciSum.SumFibanocciSequence | fibanocci_sum.py:1-10 | the function as written returns 2^49 - 1 = 562949953421311 |
| FibonacciSum.AsWrittenGrows | fibanocci_sum.py:5-8 | each turn adds the previous `a` to the sum; sum, a and b never decrease |
| FibonacciSum.FibSumClosedForm | fibanocci_sum.py:2 | the sum of the first n Fibonacci numbers is F(n+1) - 1 |
| FibonacciSum.SumFibonacci | fibanocci_sum.py:2-8 | with the simultaneous update, n turns sum the first n Fibonacci numbers, F(n+1) - 1 |
| FibonacciSum.IntendedFibonacciSum | fibanocci_sum.py:1-10 | the documented result, the sum of the first 50 Fibonacci numbers, is 20365011073 |
| FibonacciSum.FibBelowPow2 | fibanocci_sum.py:7-8 | F(k) ≤ 2^(k-2), strictly from k = 4 on, so the doubling loop outgrows the Fibonacci numbers |
| FibonacciSum.AsWrittenIsNotFibonacciSum | fibanocci_sum.py:2-8 | from 3 turns on, the loop as written returns strictly more than the Fibonacci sum it documents |
| RandomBinary.Generate | random_gen.py:4 | the generated string has one character per draw, each '0' or '1', '1' exactly for a `true` draw |
| RandomBinary.ParseBinary | random_gen.py:7 | `int(s, 2)` succeeds exactly on a non-empty string of binary digits, with its base-2 value; otherwise it names the empty string or the first invalid digit |
| RandomBinary.ValueIsPositional | random_gen.py:7 | the value is the sum of digit i times 2^(len-1-i), most significant digit first |
| RandomBinary.Value | random_gen.py:7 | the value `int(s, 2)` gives a string of n binary digits is below 2^n; `ValueIsPositional` proves it is the positional sum of the digits |
| RandomBinary.ValueOfToBinary | random_gen.py:7 | writing a value that fits in `width` digits and reading it back returns the value |
| RandomBinary.ToBinaryOfValue | random_gen.py:4-7 | reading a binary string and writing its value with as many digits returns the string |
| RandomBinary.RandomBinaryNumber | random_gen.py:4-7 | for every outcome of the four draws, the string has 4 binary digits, digit i is '1' exactly when draw i is `true`; its decimal value is what `int(s, 2)` returns on that string, lies in [0, 15], is the positional sum of the digits, and re-encodes to the same string |

## Left out

- HTML parsing (`BeautifulSoup`, `find_all('tr')`, `select('td')`, `get_text()`, colors.py:24-27) is a foreign library. The model takes the rows as sequences of cell texts, so text nested in markup inside a cell is assumed already flattened.
- `save_to_db`, psycopg2 and the `DB_CONFIG` environment lookups (colors.py:7-13, 51-72) are database and environment I/O.
- `generate_result` (colors.py:74-91) only prints and formats. Stdin parsing and printing in recursive_search.py:12-22, random_gen.py:9-10 and fibanocci_sum.py:12-13 are I/O.
- Floating point: `/` and `statistics.variance` (colors.py:44,47) are modelled with exact reals, so rounding is not modelled.
- Text.IsSpace: `strip()` is modelled with the ASCII whitespace set only (space, \t, \n, \x0b, \x0c, \r, \x1c-\x1f). Python also strips non-ASCII whitespace such as U+00A0 and U+2028.
- ColorStatistics.ProbabilityOfRed: for tables built outside `parse_html`, this lemma allows a "RED" key with count 0. `ProbabilityRedBounds` states the exact "0 iff absent" for tables with positive counts, which are the only tables `parse_html` returns.
- RecursiveSearch.Search: `index` is a natural number. Python's negative indexing for a negative `index` is not modelled; the script only ever calls the function with the default 0. Python's recursion limit, which would raise `RecursionError` on lists longer than about 1000 elements, is not modelled either.
- RandomBinary.ParseBinary: only digit strings are modelled. Python's `int(s, 2)` also accepts surrounding whitespace, underscores between digits, a sign and a `0b` prefix. The generator never produces these.
- `random.choice` (random_gen.py:4) is replaced by an arbitrary sequence of four draws. Every property is proved for all draws.

## Findings

| source | as written | input that shows it | evidently intended | confidence | as-written member | corrected member |
|---|---|---|---|---|---|---|
| fibanocci_sum.py:2-8 | `a = b` followed by `b = a + b` sets `b` to `2 * b`. The 50-turn loop therefore sums 0, 1, 2, 4, … and returns 2^49 − 1 = 562949953421311 | the call `sum_fibanocci_sequence()` (no input) | the sum of the first 50 Fibonacci numbers, promised by the docstring and obtained with the simultaneous update `a, b = b, a + b`: F(51) − 1 = 20365011073 | not executed | FibonacciSum.AsWrittenIsNotFibonacciSum | FibonacciSum.IntendedFibonacciSum |
