# WhatsApp number checker bot: the verification and retry-tracking engine in Dafny

`bot.py` is a Telegram bot that reads phone numbers from a message, rewrites
each into a Nigerian `+234…` form, asks a (stubbed, deterministic) lookup
whether the number is registered on WhatsApp, records every check in a global
ledger with a retry time for unregistered numbers, reports progress during a
batch, and exports the results of the last batch through a small set of
filters chosen with inline buttons.

This project models that engine as immutable datatypes and pure functions,
with a few loop methods written the way the Python is, and proves what the
code promises about it. Time is an integer number of seconds that the caller
passes in.

Modules, in dependency order:

- `Base` (`base.dfy`): `Option`, `Filter`, `Map`, `Flatten` and the
  order-preserving subsequence relation, with their algebra.
- `Text` (`text.dfy`): the Python string operations the bot relies on:
  `str.strip()`, `str.split(sep)`, `str.replace(pat, '')`, the `'/skip'`
  comparison after `lower()`, and `int()` on a reply.
- `Phone` (`phone.dfy`): `clean_phone_number`.
- `Verdict` (`verdict.dfy`): `check_number` with the `_check_with_api` stub.
- `Ledger` (`ledger.dfy`): the `DataStore` maps, `update_status` and the
  "save now?" test.
- `Extraction` (`extraction.dfy`): the number extraction of `process_numbers`.
- `Batch` (`batch.dfy`): `set_retry_and_check`: the retry reply, the checking
  loop, the result rows, the progress cadence and the user activity record.
- `Filters` (`filters.dfy`): the filter state kept by `button_handler` and the
  selection in `export_results`.
- `Stats` (`stats.dfy`): the counts shown by `show_status`.

Behaviours of the code a reader might not expect:

- The ledger is keyed by the raw text the user typed (bot.py:269), not by
  the cleaned number, so `0803…` and `+234803…` make two entries
  (`Batch.BatchLedgerKeys`).
- Input without any digit is not marked `invalid`: it cleans to `+` signs
  only and is reported `not_on_whatsapp` (`Verdict.DigitlessInputIsNotOnWhatsApp`);
  with the `pywhatkit` import probe left out (see "Left out"), the `invalid`
  and `error` outcomes cannot occur (`Verdict.CheckNumber`). In the code,
  `error` is still reached when that import raises anything other than
  `ImportError`, for example on a server without a display.
- Every `+` survives cleaning, not only the leading one
  (`Phone.CleanKeepsEveryPlus`).
- The ledger is saved when its number of distinct keys is a multiple of ten,
  not after every ten updates: re-checking known numbers either saves on every
  update or never (`Ledger.SaveRepeatsOnKnownNumbers`,
  `Ledger.KnownNumbersNeverSave`).

## Model

| member | source | states |
|---|---|---|
| Text.Strip | bot.py:91 | the result is an infix of the input with only Python whitespace before and after it, and neither of its ends is whitespace |
| Text.StripUnique | bot.py:91 | text with whitespace on both sides strips to exactly that text when its own ends are not whitespace |
| Text.Split | bot.py:221-222 | there is always at least one part, and no part holds a separator character |
| Text.JoinSplit | bot.py:221-222 | joining the parts of `split(sep)` with `sep` gives the text back |
| Text.SplitAtSeparator | bot.py:221-222 | splitting at a separator character splits the parts on each side independently |
| Text.RemoveAll | bot.py:418 | `replace(pat, '')` never lengthens the text |
| Text.RemoveAllLeading | bot.py:418 | a leading occurrence of the pattern is removed |
| Text.RemoveAllAbsent | bot.py:418 | text in which the pattern occurs nowhere is left unchanged |
| Text.RemoveAllMissingChar | bot.py:418 | text lacking one character of the pattern is left unchanged |
| Text.ParseInt | bot.py:245 | `int()` succeeds only on text holding a digit |
| Text.ParseIntPadded | bot.py:245 | a decimal numeral with only the characters `int()` ignores around it parses to its value |
| Text.ParseIntRejectsSeparator | bot.py:245 | a numeral next to one of U+001C to U+001F fails to parse, although `strip()` would remove that character |
| Text.ParseShowNat | bot.py:245 | `int(str(n)) == n` for every natural number |
| Phone.WithPlusPrefix | bot.py:92-98 | the rewritten number starts with `+`; unless it started with the trunk prefix it ends like the trimmed input |
| Phone.RewriteShape | bot.py:92-98 | a leading `0` is replaced by `+234`, a leading `+` is kept, and anything else, a leading `234` included, gets one `+` in front |
| Phone.Clean | bot.py:88-104 | the cleaned number is non-empty, starts with `+` and holds only digits and `+` |
| Phone.CanonicalIsFixed | bot.py:88-104 | a number of that shape is its own cleaning |
| Phone.CleanIdempotent | bot.py:88-104 | cleaning a cleaned number changes nothing |
| Phone.CleanCountryPrefix | bot.py:93-96 | a leading `0` or a leading `234` both give `+234` followed by the dialable characters of the rest |
| Phone.CleanDigits | bot.py:91-101 | the digits of the cleaned number are those of the trimmed input, with a leading `0` traded for `234` |
| Phone.CleanTrimmed | bot.py:91 | already-trimmed input is only rewritten and filtered |
| Phone.CleanKeepsEveryPlus | bot.py:101 | every `+` of the trimmed input is kept, plus one added in front when it did not start with `+` |
| Phone.CleanWithoutDigits | bot.py:88-104 | input without digits cleans to `+` signs only |
| Verdict.CheckWithApi | bot.py:135-139 | the stub fails exactly on the empty number and otherwise answers one of the two decided verdicts |
| Verdict.CheckNumber | bot.py:62-86 | the verdict is always `on_whatsapp` or `not_on_whatsapp`; `invalid` and `error` are unreachable |
| Verdict.VerdictFromCleanNumber | bot.py:135-139 | `on_whatsapp` exactly when the cleaned number ends in an even digit |
| Verdict.RewriteKeepsLast | bot.py:92-98 | the rewrite keeps the last character, except that a lone `0` becomes `+234` |
| Verdict.VerdictFromInput | bot.py:62-86 | when the trimmed input ends in a digit, that digit alone decides the verdict |
| Verdict.DigitlessInputIsNotOnWhatsApp | bot.py:68-70 | input without digits passes the emptiness test and is reported not on WhatsApp |
| Ledger.UpdateStatus | bot.py:143-156 | the entry gets the status and time, a retry time exactly for `not_on_whatsapp` equal to now plus the hours, attempts one more than before (or 1), and no other entry changes |
| Ledger.SaveRepeatsOnKnownNumbers | bot.py:158-160 | at a multiple-of-ten size, updating a known number saves again |
| Ledger.KnownNumbersKeepKeys | bot.py:150 | updates of numbers already in the ledger leave its keys unchanged |
| Ledger.KnownNumbersNeverSave | bot.py:158-160 | at any other size, any run of updates to known numbers never saves |
| Ledger.NewNumberGrowsLedger | bot.py:150 | a new number adds exactly one entry |
| Ledger.UpdatePreservesConsistency | bot.py:146-153 | each entry keeps "retry time iff not on WhatsApp" |
| Ledger.AttemptsCountUpdates | bot.py:155 | after any interleaving of updates, a number's attempts grew by the number of its updates; others are untouched |
| Ledger.UpdatesPreserveConsistency | bot.py:146-153 | any sequence of updates keeps the whole ledger retry-consistent |
| Ledger.UpdatesForCountsPhones | bot.py:155 | the update count of a number is its multiplicity among the updated numbers |
| Ledger.ApplyUpdatesKeys | bot.py:150 | updates add exactly the updated numbers to the ledger's keys |
| Stats.GlobalCounts | bot.py:558-560 | total is the ledger size, the "on" count the entries on WhatsApp, the "not on" count all other entries |
| Stats.NotOnIncludesUndecided | bot.py:560 | the "not on" count also counts `invalid` and `error` entries |
| Stats.UserCountsAfterBatch | bot.py:309-312 | after a batch the caller's status block shows its finishing time and size, and every other user's block is unchanged |
| Extraction.Candidates | bot.py:220-225 | every extracted item is non-empty, trimmed, holds a digit and contains no comma or line break |
| Extraction.KeepNumbers | bot.py:222-225 | the inner loop keeps exactly the trimmed parts that pass the test, in order |
| Extraction.ExtractNumbers | bot.py:220-225 | the nested loops give the same numbers as cutting the text at both separators at once |
| Extraction.LinesThenCommas | bot.py:221-222 | cutting into lines and then at commas gives the fields of cutting at both at once |
| Extraction.CandidatesAtSeparator | bot.py:220-225 | order is kept: numbers before a separator come before those after it |
| Extraction.SingleNumber | bot.py:220-225 | an item that already has the extracted shape is found as it is |
| Extraction.ProcessNumbers | bot.py:212-229 | the given text or else the message text is used; no text at all is refused, text without candidates is refused as invalid, and otherwise the numbers found are exactly its candidates |
| Batch.ChooseRetryHours | bot.py:241-251 | accepted hours are within 1..168; `/skip` in any case gives 24; otherwise accepted iff `int()` succeeds within range, and "not a number" iff `int()` fails |
| Batch.DigitsAreNotSkip | bot.py:243 | a reply starting with a digit is never taken as `/skip` |
| Batch.ChooseShownHours | bot.py:243-246 | sending any hour count from 1 to 168 chooses it |
| Batch.SeparatorReplyIsNotANumber | bot.py:243-251 | a reply with one of U+001C to U+001F before the number is answered as not a number |
| Batch.ResultFor | bot.py:272-285 | the row holds the cleaned number, the verdict, the check time, and a retry time exactly when not on WhatsApp, equal to now plus the hours |
| Batch.Results | bot.py:265-287 | one row per input in input order, each with the cleaned number, its time, the verdict of `check_number` on the input, which is decided, and a retry time exactly when not on WhatsApp, equal to its time plus the hours |
| Batch.Updates | bot.py:269 | the ledger updates are keyed by the raw inputs, in input order |
| Batch.RunBatch | bot.py:265-299 | the loop yields exactly the reference rows, ledger and progress reports |
| Batch.ReportsSnoc | bot.py:288-289 | a new row adds a report exactly when its position is due |
| Batch.ReportsAtDuePositions | bot.py:288-298 | every report is at a due position and shows the counts up to it; every due position has its report |
| Batch.ReportCount | bot.py:288-289 | one report per five rows, plus a final one when the size is not a multiple of five |
| Batch.FinalReport | bot.py:288-289 | the last report of a non-empty batch covers the whole batch |
| Batch.CountsBound | bot.py:291-292 | the running on and off counts never exceed the rows seen |
| Batch.CountsCover | bot.py:323-324 | with only decided verdicts, the on and off counts add up to the rows |
| Batch.ReportsBalanced | bot.py:288-298 | in a batch every report's on and off counts add up to the numbers processed |
| Batch.BatchLedgerKeys | bot.py:269 | after a batch the ledger keys are the old keys and the raw inputs |
| Batch.BatchAttempts | bot.py:269 | a number's attempts grow by its number of occurrences in the batch, duplicates included |
| Batch.BatchConsistent | bot.py:269-285 | a batch keeps the ledger retry-consistent and all its rows retry-consistent |
| Batch.SetRetryAndCheck | bot.py:239-330 | the reply is judged before the numbers; a completed run gives the rows, ledger and reports of the loop, records the caller's activity, and its summary counts are the on and off counts of the rows, which add up to the batch size |
| Filters.Select | bot.py:485-512 | the selection is an order-preserving subsequence of the rows passing the chosen test, and all rows when no test applies |
| Filters.Export | bot.py:474-518 | no rows gives "no results"; "all" exports every row; otherwise the exported rows are exactly the selection, "no matches" iff it is empty, described by the filter or else the combination |
| Filters.Press | bot.py:411-454 | only `filter_` buttons other than the menu change the filter, only `combo_` buttons change the combination, never both; export buttons export with the current choice |
| Filters.PressFilterButton | bot.py:416-418 | pressing `filter_<name>` records `<name>` |
| Filters.PressComboButton | bot.py:451-454 | pressing `combo_<name>` records `<name>` |
| Filters.ChooseThenExport | bot.py:416-449 | choosing a filter and then exporting uses that filter |
| Filters.RetrySelection | bot.py:495-498 | a row is selected by `retry` iff its retry time is strictly later than now |
| Filters.OnOffSplit | bot.py:491-494 | the `on` and `off` selections are disjoint and, on batch rows, cover every row |
| Filters.UnrecognisedChoiceKeepsAll | bot.py:489-510 | with no recognised filter and no recognised combination every row is kept |
| Filters.BothAndWithinBothOr | bot.py:501-510 | the `both_and` selection is a subsequence of the `both_or` one |
| Filters.CombosOnBatchRows | bot.py:495-510 | on batch rows `both_and` selects what `retry` selects and `both_or` selects every row |

## Left out

- Telegram transport: handlers, replies, keyboards, conversation states and
  the bot's start-up wiring; the model returns what each step answers as a
  datatype instead of sending messages.
- File uploads read with pandas and the CSV export through `DataFrame` and a
  temporary file: foreign-library I/O. The export is modelled up to the rows
  and the description that names the file.
- Reading and writing `data.json` (`DataStore.save_to_file` and
  `load_from_file`): file I/O. Only the "save now?" test is modelled.
- `asyncio.sleep` rate limiting, the unused `api_cooldown`, the `pywhatkit`
  import probe (and so the `error` verdict a failing import leads to) and the commented-out HTTP call: timing and external code.
- The progress percentage `int((i / n) * 100)`: floating point. Reports carry
  the count processed, the batch size and the running counts.
- `datetime.now()` and the `strftime`/`strptime` string round trips:
  timestamps are whole seconds passed in by the caller. One clock reading per
  number stands for the separate readings the code makes for the ledger, the
  row and its retry time, and one more reading stands for the activity
  record.
- Python's Unicode-aware `isdigit`, `int()` digits and `lower()`: digits are
  ASCII `0`-`9`, and lower-casing is modelled only as far as deciding whether
  a reply is `/skip` (ASCII capitals and the Kelvin sign).
- The filter confirmation text built with `.title()` and the combo
  descriptions: user-interface strings.
- Concurrent sessions sharing the global store.
- Text.RemoveAll: its own contract states only that the text does not grow;
  what is removed is stated by `Text.RemoveAllLeading`,
  `Text.RemoveAllAbsent` and `Text.RemoveAllMissingChar`.
- Text.ParseInt: its own contract states only that success needs a digit;
  the value of a padded numeral is stated by `Text.ParseIntPadded` and
  `Text.ParseShowNat`, and the refusal of U+001C to U+001F by
  `Text.ParseIntRejectsSeparator`. Non-ASCII digits are not modelled, and
  neither is the interpreter's limit of 4300 digits on `int()` and `str()`:
  a Telegram text message holds at most 4096 characters, so a reply never
  reaches it, and `Text.ParseIntPadded` and `Text.ParseShowNat` hold for
  numerals of any length.
- Phone.Clean: the `except` branch returning `None` is not modelled, because
  a string argument cannot raise there.
