# zembu.py in Dafny

zembu.py checks whether dictionary words are free as domain names. It reads a
word list, puts every word+TLD combination to `whois` (at most one call per
second), collects the domains whose reply says "no match for", and writes them
to a log file with a summary of the run.

This project models the data handling around the WHOIS calls, all in
`zembu.py`:

- `wordlist.dfy`: the word-list loader `get_dict_words`. Its input is the
  file's lines. Each line is stripped and lower-cased. If the first line has a
  `;`, every line is split into a word and its annotation fields, in order,
  blank lines included. Otherwise the non-empty lines are deduplicated and
  sorted. A file without lines fails with `EmptyFile`, because `words[0]` is
  out of range.
- `checker.dfy`: the classification inside `check_domain`. A reply means
  "available" when its lower-cased text contains `no match for`.
- `batch.dfy`: the loop of `check_domains`. The WHOIS lookup is an oracle
  `isAvailable: string -> bool`. The loop walks words × TLDs, word-major. It
  returns `(len(words) * len(tlds), available)`, or `IndexError` when `word_info` is
  shorter than `words`. It also records the `curr`, `amount` and `domain`
  arguments of each `print_progress` call.
- `resultlog.dfy`: the text `log_output` writes: header, settings dump,
  separator and the available list. A reader gets the list back from the text.
- `text.dfy`, `ordering.dfy`, `wrappers.dfy`: Python 2's `strip`, `lower`,
  `split`, `join`, substring test and string order, plus a `Result` type.

The script is Python 2, so its strings are byte strings. `strip()` removes
ASCII whitespace (bytes 9 to 13 and space), `lower()` maps only `A`-`Z`, and
strings compare byte by byte. The model works on `string`, with each character
standing for one byte.

The model follows the code as written:
- Only a file with no lines at all is rejected. A file of blank lines gives an
  empty word list.
- Annotated mode keeps blank lines, as the word `""` with no fields.
- A bare word list always makes the loop fail at `word_info[n]` unless it is
  empty. `word_info` is `[]` in that mode.
- There is no "unknown" classification and no retry.
- An interrupt discards the results: no partial log is written.

## Model

| member | source | states |
|---|---|---|
| `Text.IsSpace` | zembu.py:93 | definition: the whitespace `strip()` removes, bytes 9 to 13 and space |
| `Text.Strip` | zembu.py:93 | the result is empty exactly when the line is all whitespace; otherwise it neither starts nor ends with whitespace |
| `Text.StripRemovesPadding` | zembu.py:93 | stripping any whitespace padding around a text that does not start or end with whitespace gives that text back |
| `Text.Lower` | zembu.py:93 | same length; each upper-case ASCII letter becomes its lower-case letter (code plus 32); every other character is kept; no upper-case letter is left |
| `Text.LowerIdempotent` | zembu.py:119 | lower-casing twice is the same as lower-casing once |
| `Text.Split` | zembu.py:100 | at least one field; no field holds the separator; exactly one field when the text has no separator |
| `Text.JoinSplit` | zembu.py:100-102 | joining the fields with the separator gives the original text back |
| `Text.SplitJoin` | zembu.py:100-102 | splitting a join of separator-free parts gives the parts back |
| `Text.Join` | zembu.py:144 | definition: `sep.join(parts)` (round trips in `Text.JoinSplit` and `Text.SplitJoin`) |
| `Text.SplitNoSeparator` | zembu.py:100 | text without a separator splits into itself alone |
| `Text.SplitAround` | zembu.py:100 | splitting at a separator occurrence splits the two sides independently |
| `Text.JoinAvoids` | zembu.py:144 | a character found in neither the parts nor the separator is not in their join |
| `Text.Contains` | zembu.py:119 | definition: the substring test `pattern in text`, as a scan over positions |
| `Text.ContainsIff` | zembu.py:119 | the substring scan succeeds exactly when the pattern occurs at some position |
| `Ordering.Less` | zembu.py:107 | definition: Python 2's `<` on byte strings, character by character, a proper prefix first (properties in `Ordering.LessTotal`, `Ordering.LessTransitive`, `Ordering.LessIrreflexive`) |
| `Ordering.LessTotal` | zembu.py:107 | Python's string order is total on distinct strings |
| `Ordering.LessTransitive` | zembu.py:107 | Python's string order is transitive |
| `Ordering.LessIrreflexive` | zembu.py:107 | no string is less than itself |
| `Ordering.Insert` | zembu.py:106-107 | inserting into a strictly ascending list keeps it strictly ascending, with the new element added |
| `Ordering.SortUnique` | zembu.py:106-107 | `sorted(set(xs))` is strictly ascending and holds exactly the elements of `xs` |
| `Ordering.AscendingUnique` | zembu.py:106-107 | two strictly ascending lists with the same elements are equal, so the sorted vocabulary is unique |
| `WordList.Normalize` | zembu.py:93 | definition: a line is stripped, then lower-cased |
| `WordList.NormalizeAll` | zembu.py:93 | definition: the list comprehension of normalized lines, one entry per line (used through `Normalize(lines[i])` in `WordList.BareModeOutput` and `WordList.AnnotatedModeOutput`) |
| `WordList.Annotated` | zembu.py:98-103 | definition: per line, in order, the first `;`-field is the word and the rest are its fields (properties in `WordList.AnnotatedModeOutput`) |
| `WordList.Vocabulary` | zembu.py:104-107 | definition: the non-empty lines, deduplicated and sorted, with empty `word_info` (properties in `WordList.BareModeOutput`) |
| `WordList.ParseDict` | zembu.py:85-109 | definition: no lines is `EmptyFile`; otherwise the first normalized line's `;` picks annotated or bare mode |
| `WordList.NonEmpty` | zembu.py:105 | `filter(None, ...)` keeps exactly the non-empty strings |
| `WordList.SplitAnnotated` | zembu.py:98-103 | the append loop yields, line by line, the first `;`-field as the word and the remaining fields as `word_info` |
| `WordList.GetDictWords` | zembu.py:85-109 | the loader returns the parse of its lines: `EmptyFile` on no lines, otherwise annotated or bare mode as the first normalized line decides |
| `WordList.EmptyInputIsError` | zembu.py:93-97 | the loader fails exactly when there are no lines |
| `WordList.BareModeOutput` | zembu.py:104-107 | bare mode: strictly ascending words, no empty word, exactly the non-empty normalized lines, and empty `word_info` |
| `WordList.BareModeIgnoresOrder` | zembu.py:105-107 | bare mode: inputs with the same set of normalized lines give the same result, whatever their order or repetitions |
| `WordList.AnnotatedModeOutput` | zembu.py:97-103 | annotated mode: one word and one field list per line, in line order; neither the word nor any field holds `;`; word and fields joined by `;` rebuild the normalized line, so they are exactly the line's `;`-separated fields |
| `WordList.AnnotatedModePlainLine` | zembu.py:99-102 | annotated mode: a line without `;` (a blank one included) gives the whole line as word and no fields |
| `WordList.BareModeLacksInfo` | zembu.py:90 | bare mode with any word: `word_info` is shorter than `words` |
| `Checker.IsAvailable` | zembu.py:119-122 | definition: the lower-cased reply contains `no match for` (properties in the lemmas below) |
| `Checker.IsAvailableIff` | zembu.py:119-122 | a reply is available exactly when `no match for` occurs somewhere in its lower-cased text |
| `Checker.IsAvailableIgnoresCase` | zembu.py:119 | lower-casing the reply first does not change the classification |
| `Checker.IsAvailableInContext` | zembu.py:119 | text added before or after an available reply keeps it available |
| `Checker.NoLetterFNotAvailable` | zembu.py:119-122 | a reply without the letter f in either case is never available |
| `Checker.MixedCaseReplyIsAvailable` | zembu.py:119-120 | "No Match For example.com" is available |
| `Checker.RegistrarReplyIsUnavailable` | zembu.py:119-122 | the reply "Registrar: Example Registrar, Inc." followed by "Name Server: NS1.EXAMPLE.COM" on the next line is not available |
| `Batch.Domain` | zembu.py:141 | definition: the word, a dot and the TLD, lower-cased (used position by position in `Batch.RowAt` and `Batch.CandidateAt`) |
| `Batch.Entry` | zembu.py:144 | definition: the domain, ` (`, the fields joined by `, `, and `)` (properties in `ResultLog.EntryIsLoggable`) |
| `Batch.Row` | zembu.py:140-141 | a word has one candidate per TLD considered |
| `Batch.Candidates` | zembu.py:137-141 | definition: the rows of the first `n` words, word-major (contents in `Batch.CandidateAt`) |
| `Batch.Report` | zembu.py:142-144 | no more report lines than candidates |
| `Batch.Batch` | zembu.py:125-150 | definition: `IndexError` when `word_info` is shorter than `words`, otherwise `len(words) * len(tlds)` and the report of all candidates (properties in `Batch.BatchOutcome`) |
| `Batch.CheckWord` | zembu.py:140-148 | the inner loop yields the word's report lines TLD by TLD (which `Batch.RowReportIsReport` equates with reporting its row of candidates) and, unless verbose, one progress event per TLD |
| `Batch.RowReport` | zembu.py:140-144 | definition: the lines the inner loop appends for one word, TLD by TLD (equal to the row's report by `Batch.RowReportIsReport`) |
| `Batch.BatchReport` | zembu.py:135-144 | definition: the `available` list after the first `n` words, word by word (equal to the report of all their candidates by `Batch.BatchReportIsReport`) |
| `Batch.RowReportIsReport` | zembu.py:140-144 | the lines the inner loop collects for one word are exactly the report of that word's candidates, in TLD order |
| `Batch.BatchReportIsReport` | zembu.py:135-144 | the lines the outer loop collects word after word are exactly the report of the whole word-major candidate list |
| `Batch.CheckDomains` | zembu.py:125-150 | the loop returns the batch result (`IndexError` exactly when `word_info` runs out) and, unless verbose, the progress events of every word it finished |
| `Batch.CandidatesLength` | zembu.py:130 | there are `n * len(tlds)` candidates for `n` words |
| `Batch.RowAt` | zembu.py:140-141 | the `j`-th candidate of a word is that word with TLD `j`, lower-cased, carrying the word's fields |
| `Batch.CandidateAt` | zembu.py:137-141 | candidate `i * len(tlds) + j` is word `i` with TLD `j`, lower-cased, carrying word `i`'s fields: the exact word-major cross product |
| `Batch.ReportConcat` | zembu.py:135-144 | reporting keeps candidate order across concatenation |
| `Batch.ReportMembership` | zembu.py:142-144 | a line is reported exactly when it is the entry of a candidate the oracle calls available |
| `Batch.ReportAllAvailable` | zembu.py:142-144 | when every domain is available, every candidate is reported, in order |
| `Batch.ReportNoneAvailable` | zembu.py:142-144 | when no domain is available, nothing is reported |
| `Batch.BatchOutcome` | zembu.py:130-150 | the loop fails exactly when `word_info` is shorter than `words`; otherwise amount is `len(words) * len(tlds)` whatever the oracle says, and the available list is no longer |
| `Batch.AnnotatedListsCanBeChecked` | zembu.py:97-103 | a word list loaded in annotated mode never makes the loop fail |
| `Batch.BareListsCannotBeChecked` | zembu.py:139 | a bare-mode word list with any word makes the loop fail with `IndexError` |
| `Batch.RowProgress` | zembu.py:146-148 | one event per TLD of a word (counter values in `Batch.RowProgressAt`) |
| `Batch.Progress` | zembu.py:136-148 | definition: the script's events, word by word, the counter of word `i` starting at `i` (values in `Batch.ProgressAt`) |
| `Batch.RowProgressAt` | zembu.py:146-148 | within a word, the `j`-th TLD's event shows the counter's starting value plus `j + 1` (the script starts it at the word index) |
| `Batch.ProgressLength` | zembu.py:146-148 | one progress event per checked domain |
| `Batch.ProgressAt` | zembu.py:136-148 | the event for word `i` and TLD `j` shows `i + j + 1` and names that domain |
| `Batch.ProgressFallsShort` | zembu.py:136-148 | with at least two words and two TLDs, the last event of a run shows less than `amount` |
| `Batch.ProgressCounterExample` | zembu.py:136-148 | two words with `com` and `net` show 1, 2, 2, 3 of 4 |
| `Batch.GlobalProgress` | zembu.py:146-148 | definition of the corrected events: the counter of each word starts at the number of domains already checked |
| `Batch.GlobalProgressCounts` | zembu.py:146-148 | the corrected counter shows `k + 1` at the `k`-th event, over the same domains |
| `Batch.GlobalProgressCompletes` | zembu.py:78-79 | with the corrected counter a complete run ends at `amount`, i.e. 100% |
| `ResultLog.MakeSettings` | zembu.py:171-178 | definition: the settings record of a run (properties in `ResultLog.SettingsOfRun`) |
| `ResultLog.Header` | zembu.py:170-182 | definition: `zembu.py: ` followed by the time, ` UTC` and `:` and a line break |
| `ResultLog.LogText` | zembu.py:169-186 | the log starts with the `zembu.py: <time> UTC:` header and ends with a newline |
| `ResultLog.LogLines` | zembu.py:182-186 | the log text's lines are the header-and-settings lines, the `----` line, the list's lines and a final empty line |
| `ResultLog.ListLines` | zembu.py:169-185 | the newline-joined list of one-line entries splits back into the list (one empty line for an empty list) |
| `ResultLog.ReadBack` | zembu.py:182-186 | whatever precedes the separator, the text after the last `----` line reads back as the lines written there |
| `ResultLog.LogRoundTrip` | zembu.py:182-186 | for one-line, non-empty entries other than `----`, the list read back from the log text is the available list |
| `ResultLog.EntryIsLoggable` | zembu.py:144 | an entry built from one-line parts is a non-empty line other than `----` |
| `ResultLog.CandidatesAreOneLine` | zembu.py:137-144 | words, TLDs and fields without line breaks give candidates without line breaks |
| `ResultLog.RunRoundTrip` | zembu.py:144-186 | the available list of any completed run over one-line words, TLDs and fields reads back unchanged from its log |
| `ResultLog.SettingsOfRun` | zembu.py:171-178 | the settings of a completed run: `words` is `len(words)`, `checked` is the returned `amount`, i.e. `len(words) * len(tlds)`, `available` counts the list and is at most `checked`, and version, duration and options are passed through |

## Findings

| source | as written | input that shows it | evidently intended | confidence | as-written member | corrected member |
|---|---|---|---|---|---|---|
| zembu.py:136-148 | `n` is both the word loop's variable and the progress counter, so the count restarts at the word index for every word | words `a`, `b` with TLDs `com`, `net`: the bar shows 1, 2, 2, 3 of 4, ending at 75% | the number of domains checked so far, ending at `amount` (100%) | not executed; follows from the loop as written | `Batch.ProgressCounterExample` | `Batch.GlobalProgressCounts` |

`Batch.CheckDomains` emits the counter the script prints (`Batch.Progress`).
`Batch.GlobalProgress` is the intended count. The two name the same domains in
the same order (`Batch.GlobalProgressCounts`). Nothing else in the model reads
the counter.

## Left out

- `rate_limited` (zembu.py:20-55): the pacing uses `time.clock` (processor time on Unix), `time.sleep` and floating point. WHOIS calls are the pure oracle `isAvailable`, with no timing.
- `get_exec_unsafe` (zembu.py:58-70): a shell call. The classifier takes the reply text. The `False` returned on a failed call, which would make `.lower()` raise at zembu.py:119, is not modelled. Neither is the `strip()` of the reply.
- The shell quoting of the domain in `check_domain` (zembu.py:117) is not modelled.
- `print_progress` (zembu.py:73-82): the terminal rendering and the float percentage. Only its `curr`, `amount` and `domain` arguments are recorded, as `Batch.ProgressEvent`; the display ignores `is_available`.
- The console messages (zembu.py:114-115, 131-133, 179-180, 187) and the `stty size` probe (zembu.py:16) are left out.
- `is_writable` and the file writes of `log_output` (zembu.py:153-162, 181-187): file I/O. Only the text written is modelled.
- `datetime.utcnow()` and `pprint.pformat` (zembu.py:170, 183) are parameters: the timestamp string and a function `format`. The command-line options are an opaque `map<string, string>`.
- Reading the dictionary file (zembu.py:92-93) is left out. The model takes its lines.
- `main` (zembu.py:190-258) is left out: argument parsing, `--tlds` split on commas, timing, exit codes and `KeyboardInterrupt` handling. An interrupt writes no log, so no partial result exists to model.
