# FRice distribution check: a Dafny model

The script `frice.py` reads a list of ration cards. For each card it asks the
government portal for the card's transaction page. It then reports whether the
commodity "FRice" was handed out for that card in the current month. Each card
yields a record with the card number (`CARDNO`), the head of the family and a
`transaction_status` of "Done", "Not Done" or "Unknown".

This project models the per-card rule of `check_rc` and the collection of its
results by the driver:

- `text.dfy` (module `Text`) holds the text primitives the rule uses. These are
  ASCII lower-casing (`str.lower()`), substring search (`in`), case-insensitive
  search (`re.search(..., re.IGNORECASE)` with a literal pattern), and the
  regular expression `\bfrice\s*\(kg\)` written out by hand. It has a word
  boundary, the letters "frice", any run of whitespace and then "(kg)".
- `frice.dfy` (module `Frice`) holds the records and the table scan. `Verdict`
  is the reference definition of the scan. The method `CheckRc` is the loop
  with its early `break`, proved equal to `RecordFor`, the whole
  `check_rc`. `CollectRecords` is the driver's append loop, run in an arbitrary
  completion order.

The parts of the script outside the rule become inputs:

- The portal request is a `Response`: either `RequestFailed` (the HTTP client
  raised), or `Reply(statusCode, tableTexts)`, where `tableTexts` holds the
  text of each HTML table of the page, in page order.
- The clock is a `Month`. `MonthName` gives the lower-case English name that
  `strftime("%B").lower()` produces.
- The order in which the thread pool's calls complete is a permutation of the
  entry indices, given to `CollectRecords`.

A failure while parsing a page does not degrade the record to "Unknown". Only
the HTTP request sits inside the `try` (`frice.py:40-45`), so an exception
raised while parsing escapes `check_rc` and ends the whole run when the driver
collects that result. The model follows the code. Parsing is an input here, so
this path does not appear in it.

## Model

| member | source | states |
|---|---|---|
| `Frice.MonthName` | frice.py:22 | The month name searched for is non-empty and made only of lower-case letters, so as a regular expression it is a literal string. |
| `Frice.Verdict` | frice.py:54-62 | The table scan never yields "Unknown": it starts at "Not Done" and can only change to "Done". |
| `Frice.RecordFor` | frice.py:25-64 | There is no record exactly when `CARDNO` is missing or empty. A record carries the input `CARDNO`. Its head name is the input's, or "Unknown" when the key is missing. Its status is "Unknown" exactly when the request raised or the status code is not 200. |
| `Frice.CheckRc` | frice.py:25-64 | The early exits followed by the loop over the tables, which breaks at the first qualifying table, return exactly `RecordFor`. |
| `Frice.VerdictOfFirst` | frice.py:55-62 | When table `i` is the first to qualify, the status is "Done" if that table matches `\bfrice\s*\(kg\)` and "Not Done" otherwise. |
| `Frice.VerdictWithoutQualifying` | frice.py:54-58 | If no table contains both "transaction details" and the month name, the status stays "Not Done". |
| `Frice.FirstQualifyingExists` | frice.py:55-58 | If any table qualifies, a first qualifying table exists at or before it. |
| `Frice.VerdictDoneIff` | frice.py:58-62 | The status is "Done" if and only if there is a first qualifying table and it matches `\bfrice\s*\(kg\)` case-insensitively. |
| `Frice.VerdictIgnoresLater` | frice.py:58-62 | Tables after the first qualifying one, whether appended or changed, never change the status, because of the `break`. |
| `Frice.VerdictIgnoresEarlier` | frice.py:55-58 | Tables placed before the first qualifying one do not change the status, even when they mention "FRice (KG)". |
| `Frice.MonthSearchIsSubstring` | frice.py:56-58 | The case-insensitive month search on the lowered text is plain substring search of the month name. |
| `Frice.VerdictCaseInsensitive` | frice.py:55-61 | Changing the case of ASCII letters in any table text leaves the status unchanged. |
| `Text.FriceKgCaseInsensitive` | frice.py:60 | Whether `\bfrice\s*\(kg\)` matches with `re.IGNORECASE` does not depend on the case of the text's letters. |
| `Text.FriceKgAtCaseInsensitive` | frice.py:60 | A match starting at a given index still matches there after any change of letter case. |
| `Text.SearchLoweredText` | frice.py:56-58 | Searching lowered text for a lower-case pattern while ignoring case finds exactly what plain substring search finds. |
| `Frice.GatherPermutation` | frice.py:68-73 | The records collected, as a multiset, do not depend on the order in which the calls complete. |
| `Frice.CollectRecords` | frice.py:67-73 | The collected list holds the non-`None` results of `check_rc`, in completion order. As a multiset it equals the non-`None` results in input order. |

## Left out

- Fetching the card list, the per-card HTTP GET, its headers and its timeout (`frice.py:9-16`, `frice.py:31-41`): this is network I/O. The outcome of the per-card request is the `Response` input. A failed fetch of the list ends the run before any card is checked.
- HTML parsing and `get_text` (`frice.py:47-52`): this is a foreign library. The table texts are part of `Response`. Exceptions raised while parsing are not modelled.
- Reading the clock (`frice.py:22`): the month is a parameter. The model assumes the English month names of the C locale.
- The thread pool (`frice.py:68-70`): concurrency is not modelled. Only its effect on the order of results is kept, as the `completion` permutation.
- The progress line, the JSON output file and the final message (`frice.py:74`, `frice.py:77-80`): this is I/O.
- Text.IsWordChar: `\w` is limited to ASCII letters, digits and `_`. Python also counts non-ASCII letters and digits as word characters, so a non-ASCII letter right before "frice" is a boundary in the model but not in the source.
- Text.LowerChar: case folding is limited to ASCII letters. Python's `str.lower()` and `re.IGNORECASE` also fold non-ASCII letters, including the Kelvin sign and the dotted and dotless i, which can match `k` and `i`.
- Frice.Entry: `CARDNO` and the head name are modelled as strings or absent. Other JSON values, such as a number or `null`, are not modelled.
