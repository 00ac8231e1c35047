# Bank statement reconciliation, modelled in Dafny

This project models the core of `process_bank_statement.py`: the
deterministic part that turns loosely shaped extracted JSON into the
canonical `fields` record, plus a `Quality` record.

**What the core does.** It coerces the extracted JSON into three sections
(`Account Info`, `Summary Values`, `Transactions`). It then walks the
transaction list:

- it normalises each entry's date, description and amounts;
- it skips entries that lack a date, a description or a parsable amount;
- it drops entries whose (date, lower-cased description, amount) key was
  already seen, and remembers that it saw a duplicate;
- it sorts what is left by date.

Finally it masks the account number, parses the summary amounts and records
the missing sections. Two more pieces are modelled: the offline fallback
that collects transactions from OCR text, and the rule-based insights used
when no language model answers.

**Layout.** One module per file:

- `options.dfy`: `Option`.
- `seqs.dfy`: `Map`, `Somes` and the subsequence order, with their lemmas.
- `pyjson.dfy`: the JSON values the code handles, covering:
  - Python truthiness and `or`;
  - `dict.get` (the last entry with a key wins, as in `json.loads`);
  - `str()` of a value, `str.strip`, `str.lower` and substring tests.
- `normalizers.dfy`: `_to_float`, with the currency and separator cleaning
  and the parsing `float()` applies to what remains.
- `dates.dfy`: `_normalize_date` and the `DATE_GUESS` pattern.
- `masking.dfy`: `_mask_account`.
- `coercer.dfy`: `_coerce_extracted`.
- `records.dfy`: the canonical transaction, account and summary records.
- `datesort.dfy`: Python's stable `list.sort` keyed on the date string.
- `reconcile.dfy`: `Quality` and `_post_process_extracted`.
- `heuristic.dfy`: the filter loop of `_local_parse_text_for_txns`.
- `insights.dfy`: `_insights_local_fallback` and the cut to eight insights.

**How the model is built.**

- Each transaction entry is examined by the pure function `Examine`. The
  loop of `_post_process_extracted` is the method `Reconcile.Collect` over
  those steps, driven by `Reconcile.PostProcess`.
- `PostProcess` updates the `duplicateEntries` and `missingSections`
  fields of a `Quality` object in place. It returns the same result as the
  function `PostProcessed`, which either carries the fields or names the
  Python exception raised (`TypeError` or `AttributeError`).
- The properties are proved about `PostProcessed` and `Reconciled`:
  - validity, uniqueness of keys, order and stability of the kept
    transactions;
  - first-occurrence retention;
  - the meaning of the duplicate flag and of the missing sections;
  - masking of the account number.

**Where the model follows the code rather than the written description.**

- The account fields other than the number are passed through as extracted.
  Only the number is masked.
- A retained date is ISO-shaped only when the date pattern matched. Any
  other non-empty date text is kept unchanged.
- Month and day values are not range-checked, so `12/25/2025` becomes
  `2025-25-12`.
- Running the reconciliation on its own output removes no further
  duplicates (`Reconcile.ReconciledDedupFixed`), but it does not always give
  back the same transactions. An amount given as the text `"0"` is truthy,
  so the entry is kept with amount `0.0`. Once that amount is written as the
  number `0.0` it is falsy, and the entry is dropped
  (`Reconcile.ZeroTextKeptThenDropped`).
- The fallback filter of `_local_parse_text_for_txns` never rejects a real
  `TXN_LINE_RE` match. The pattern's date group is never empty, and its
  amount group, an optional minus followed by digits, commas and at most one
  point, always parses once the commas are removed. It only matters for
  matches that the pattern cannot produce.
- A summary amount written as `0` under its human-readable key counts as
  missing, because `0 or None` is `None`. The same `0` under the snake-case
  key is kept as `0.0`.

## Model

| member | source | states |
|---|---|---|
| Normalizers.ToFloatAccepts | process_bank_statement.py:68-77 | `_to_float` yields a value exactly when the input is not `None` and its digits, points and minus signs, read in order, form a number `float()` accepts: an optional leading minus, at most one point, at least one digit |
| Normalizers.ToFloatOfNumber | process_bank_statement.py:68-77 | a JSON number passes through `str()`, the cleaning and `float()` with its exact value |
| Normalizers.ToFloatOfText | process_bank_statement.py:68-77 | a text made of an optional minus, digits and an optional point with digits is read as its exact decimal value, negated after a minus |
| Normalizers.ToFloatOfIntText | process_bank_statement.py:68-77 | a text of digits alone is read as the integer it spells |
| Normalizers.ToFloatOfDigit | process_bank_statement.py:68-77 | a one-digit text, such as `"0"`, is read as that digit's value |
| Normalizers.SeparatedTextMatchesNumber | process_bank_statement.py:68-77 | an amount text with one separator or other non-numeric character inside, such as `-2,000.00`, gives the same value as the JSON number it spells |
| Normalizers.NonNumericIgnored | process_bank_statement.py:47-48 | any character other than a digit, `.` or `-` (a thousands comma, a currency glyph, a letter) can be removed anywhere without changing the result |
| Normalizers.InnerMinusRejected | process_bank_statement.py:73-77 | a minus sign with a digit, point or minus before it makes the value unparsable, giving `None` rather than an error |
| Normalizers.NothingNumericRejected | process_bank_statement.py:73-77 | a text without any digit, point or minus gives `None` |
| Dates.NormalizeDateCases | process_bank_statement.py:79-92 | `None` exactly for the empty string; the text unchanged when the pattern occurs nowhere; otherwise the ISO-shaped rewrite of the leftmost match |
| Dates.FormatIsoMeaning | process_bank_statement.py:90-91 | the `:04d`/`:02d` rewrite is ISO-shaped and carries the integer values of the captured year, month and day |
| Dates.YearFirstReadsText | process_bank_statement.py:49-51 | the first alternative's groups are in the text in year-month-day order, and the last group takes two digits when two are there |
| Dates.DayFirstReadsText | process_bank_statement.py:49-51 | when the first alternative fails, the second is what the search reports, and its groups are in the text in day-month-year order |
| Dates.NormalizeIso | process_bank_statement.py:79-92 | an ISO-shaped date comes back unchanged |
| Dates.NormalizeDateIdempotent | process_bank_statement.py:79-92 | normalising a normalised date changes nothing |
| Dates.NoYearNoMatch | process_bank_statement.py:82-84 | without four consecutive digits anywhere the text is returned unchanged |
| Dates.DayFirstOfText | process_bank_statement.py:49-51 | a `DD/MM/YYYY` text is matched at its start with year, month and day in that order |
| Dates.YearFirstOfText | process_bank_statement.py:49-51 | a `YYYY/M/D` text, with one- or two-digit month and day, is matched at its start as written |
| Dates.NormalizeNonEmpty | process_bank_statement.py:79-92 | a non-empty text always normalises to a non-empty text |
| Dates.NormalizeDayFirst | process_bank_statement.py:85-91 | any `DD/MM/YYYY` text becomes `YYYY-MM-DD` |
| Dates.NormalizeShortFields | process_bank_statement.py:85-91 | any `YYYY/M/D` text with one-digit month and day becomes `YYYY-0M-0D` |
| Dates.DayFirstExample | process_bank_statement.py:85-91 | `05/10/2025` becomes `2025-10-05` |
| Dates.PaddingExample | process_bank_statement.py:90-91 | `2025/1/5` becomes `2025-01-05` |
| Dates.MonthNotValidatedExample | process_bank_statement.py:85-91 | `12/25/2025` becomes `2025-25-12`: the day-first reading is not range-checked |
| Dates.TwoDigitYearExample | process_bank_statement.py:82-84 | `5/10/25` has no four-digit year, so it is returned unchanged and is not ISO-shaped |
| Masking.MaskedShape | process_bank_statement.py:100 | the mask is `XXXX-XXXX-XXXX-` followed by the last four digits, and those are the only digits it holds |
| Masking.MaskIdempotent | process_bank_statement.py:94-100 | masking twice is the same as masking once |
| Masking.MaskOfDigitText | process_bank_statement.py:94-100 | a text of four or more digits is replaced by its mask |
| Masking.MaskExample | process_bank_statement.py:94-100 | `1234567890123456` becomes `XXXX-XXXX-XXXX-3456` |
| Masking.ShortNumberExample | process_bank_statement.py:97-99 | `A-12` has only two digits and is returned unchanged |
| Coercer.Coerce | process_bank_statement.py:368-380 | each section is truthy or its empty default |
| Coercer.UnwrapOnce | process_bank_statement.py:369-370 | only one `fields` wrapper is removed |
| Coercer.CoerceIdempotent | process_bank_statement.py:368-380 | coercing the canonical form again gives the same sections |
| Reconcile.Quality.constructor | process_bank_statement.py:57-65 | the dataclass defaults |
| Reconcile.Examine | process_bank_statement.py:391-397 | an accepted entry has a non-empty date and a non-empty description with no surrounding whitespace |
| Reconcile.ExamineCases | process_bank_statement.py:391-397 | an entry that is not a dictionary is skipped; an entry raises exactly when its date is truthy and not a string; it is kept exactly when it is a dictionary with a non-empty string date, a non-empty stripped description and a parsable amount |
| Reconcile.Collect | process_bank_statement.py:390-404 | the loop raises exactly when some entry raises; otherwise it returns the first candidate of each key, in order, and the duplicate flag |
| Reconcile.PostProcess | process_bank_statement.py:382-434 | the result is `PostProcessed`; `duplicate_entries` is written exactly when the loop completes; `missing_sections` is written exactly when fields are returned |
| Reconcile.ReconciledKeepsFirst | process_bank_statement.py:397-403 | a transaction is returned exactly when it is a candidate whose key no earlier candidate has |
| Reconcile.ReconciledFromEntries | process_bank_statement.py:390-403 | every returned transaction is what some entry was accepted as |
| Reconcile.ReconciledValid | process_bank_statement.py:397 | every returned transaction has a date and a stripped non-empty description |
| Reconcile.ReconciledComplete | process_bank_statement.py:397-403 | every accepted entry's key is represented among the returned transactions |
| Reconcile.ReconciledDistinct | process_bank_statement.py:398-402 | no two returned transactions share a key |
| Reconcile.ReconciledSorted | process_bank_statement.py:405-408 | the returned transactions are ordered by date string |
| Reconcile.ReconciledStable | process_bank_statement.py:405-408 | transactions with the same date keep the order in which they were kept |
| Reconcile.DuplicateFlagMeaning | process_bank_statement.py:398-404 | the duplicate flag is set exactly when two candidates share a key, that is, exactly when deduplication drops something |
| Reconcile.DupFlagMeaning | process_bank_statement.py:398-401 | on any candidate list, the flag is set exactly when a key repeats |
| Reconcile.DedupKeepsFirst | process_bank_statement.py:398-403 | deduplication keeps exactly the first candidate of each key |
| Reconcile.DedupDistinct | process_bank_statement.py:398-402 | deduplication leaves distinct keys |
| Reconcile.DedupSubseq | process_bank_statement.py:398-403 | deduplication keeps candidates in their order |
| Reconcile.DedupIdempotent | process_bank_statement.py:398-403 | deduplicating twice is the same as deduplicating once |
| Reconcile.ReconciledDedupFixed | process_bank_statement.py:398-407 | deduplicating the returned transactions again removes nothing |
| Reconcile.ExamineKey | process_bank_statement.py:393-398 | a kept entry's key is its normalised date, its lower-cased stripped description and its parsed amount |
| Reconcile.SameKeyDeduplicated | process_bank_statement.py:398-403 | of two candidates with one key only the first is kept, and the duplicate flag is set |
| Reconcile.TextAndNumberAmountsCollide | process_bank_statement.py:393-403 | an entry whose amount is a separated text and an entry with the same date and description whose amount is the number it spells are duplicates: the second is kept by the filter and then dropped |
| Reconcile.NonStringDateRaises | process_bank_statement.py:393 | a dictionary entry with a truthy non-string date makes the whole call raise `TypeError` |
| Reconcile.AccountNumberMasked | process_bank_statement.py:413 | the returned account number is a fixed point of masking; when the extracted one has four or more digits it is the mask of its last four digits |
| Reconcile.MissingSectionsMeaning | process_bank_statement.py:426-433 | each name is reported exactly when its section is empty or absent, in the order transactions, opening, closing |
| Reconcile.ZeroOpeningIsMissing | process_bank_statement.py:418 | a zero opening balance under the human-readable key, with no alias, reads as absent |
| Reconcile.AmountOfNumber | process_bank_statement.py:418-422 | a number found under either key is read as its decimal value |
| Reconcile.ZeroAliasOpeningIsKept | process_bank_statement.py:418 | a zero opening balance under the snake-case key is kept as `0.0` |
| Reconcile.ZeroAmountDropped | process_bank_statement.py:395-397 | an amount of zero under `amount`, with no `Amount`, makes the entry unusable |
| Reconcile.ZeroTextKeptThenDropped | process_bank_statement.py:395-403 | an entry whose amount is the text `"0"` is kept with amount `0.0`, while an entry whose amount is the number zero is dropped, so running the reconciliation on its own output can lose that entry |
| DateSort.SortByDateSorted | process_bank_statement.py:406 | the sort orders by date string |
| DateSort.SortByDatePermutes | process_bank_statement.py:406 | the sort is a permutation |
| DateSort.SortByDateStable | process_bank_statement.py:406 | the sort is stable |
| DateSort.SortByDateOfSorted | process_bank_statement.py:406 | an already ordered list is left unchanged |
| Heuristic.LocalParse | process_bank_statement.py:158-166 | the loop returns the accepted matches in match order |
| Heuristic.AcceptMeaning | process_bank_statement.py:161-165 | a match is kept exactly when its date group is non-empty and its amount parses; the entry holds the normalised date, the parsed amount, the stripped span, no balance and no category |
| Heuristic.ParsedMember | process_bank_statement.py:160-165 | an entry is produced exactly when some match is accepted as it |
| Heuristic.ParsedAppend | process_bank_statement.py:160-165 | the entries of a longer scan extend those of its beginning |
| Heuristic.TwoDigitYearKept | process_bank_statement.py:161-165 | a `5/10/25` date passes the filter unchanged and is not ISO-shaped |
| Insights.LocalInsights | process_bank_statement.py:436-457 | a tip is produced exactly when its rule fires, with its payload; tips appear in rule order, each once, at most four; the placeholder appears exactly when it is the only tip |
| Insights.CountMentionsZero | process_bank_statement.py:447-452 | a count is zero exactly when no lower-cased description contains the word |
| Insights.CountMentionsAppend | process_bank_statement.py:447-452 | counting over two lists adds up |
| Insights.Shown | process_bank_statement.py:365 | at most eight insights are returned, and they are the first ones |
| Insights.LocalTipsShownWhole | process_bank_statement.py:362-365 | the local tips are never cut |

## Left out

- Orchestration is not part of this model. That covers file handling, OCR,
  image rotation, the Gemini calls, JSON extraction from model text,
  `main` and the mock output. They are I/O or calls into services.
- The `TXN_LINE_RE` scan is a regex-engine behaviour. The fallback filter
  takes the matches it yields as input.
- Floating point is not modelled. Amounts are exact rationals, so a
  JSON number's `str()` is its plain decimal text. Python's float `repr`,
  exponent notation and rounding are not modelled.
- `\d` is modelled as ASCII digits only. Python also matches other Unicode
  decimal digits.
- `str.lower` is modelled for ASCII and Latin-1 letters only.
- The `str()` of a list or dictionary uses single quotes without escaping.
  Python's choice of quotes and its escapes are not modelled.
- Duplicate keys in a JSON object are resolved as the last one wins for
  `dict.get`, as `json.loads` does. `str()` of an object with a repeated key
  is not modelled faithfully: the model prints every entry, but Python's dict
  keeps one entry per key, holding the last value at the first key's
  position. For such objects the model's `_to_float`, `_mask_account` and
  description text can differ from Python's.
- The wording of the insight messages is not modelled, nor the rounding
  and thousands formatting of the average. Tips are tagged values holding
  the exact average and the counts.
- `Reconcile.PostProcess` examines each entry through a pure function
  before the loop walks the results. This cannot be observed, because
  examining an entry changes nothing.
- `_to_float` works on any Python object through `str()`. The model covers
  the JSON values the extracted data can hold.
