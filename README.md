# pdc_task1 record normalisation, modelled in Dafny

pdc_task1 turns files of JSON records (one record per line, keys `a`, `r`, `u`, `cy`,
`ll`, `tz`, `t`, `hc`) into CSV tables of ten columns: web browser, operating system,
referrer and target domain, city, longitude, latitude, time zone, and the two timestamps.
This project models the part of that program that computes something:

- `wrappers.dfy`, module `Wrappers`: `Option`, `Result` and `Outcome`.
- `text.dfy`, module `Text`: the character class of Python's `str.isspace` (which `\s`
  also matches), `str.strip()`, and Python's ordering of `str` values.
- `utils.dfy`, module `Utils`: the field extractors of `utils.py`. The timestamp passthrough
  is one function. Each of the three regular expressions is an explicit scan that returns
  the span of its capture group, and its contract states which match Python's `re.search`
  finds: the leftmost one, with greedy groups.
- `columns.dfy`, module `Columns`: the pandas column operations the program uses. These are
  `Series.ffill()`, `Series.mode().iloc[0]`, and the two replace-empty imputations. A column
  is a `seq<Option<T>>`, where `None` is a missing cell.
- `app.dfy`, module `App`: lines 50-69 of `app.py`. A file is given as its sequence of
  parsed records. `Process` builds the ten columns, nine of them forward-filled, or returns
  the error the derivations raise. The class `Frame` holds the processed frame, and its
  method `Impute` overwrites `time_zone` and `city` in place, as the program does.
  `ProcessFile` chains the two steps for one file.

Three points where the program's behaviour may be surprising:
- `mode()` returns the most frequent values sorted, so a tie goes to the smallest string,
  not to the value met first.
- The time-zone mode is taken before stripping, so `""` and `" UTC"` are counted as
  values of their own.
- Imputing twice is the same as imputing once when the value put into `time_zone` is
  non-empty and already stripped. A time-zone mode such as `" UTC"` is put in unstripped,
  and a second pass strips it.

## Model

| member | source | states |
|---|---|---|
| Utils.ConvertTimestamp | pdc_task1/utils.py:15-18 | with `keep_unix` the timestamp comes back unchanged; otherwise it is the local-time text of that timestamp |
| Utils.UrlSpan | pdc_task1/utils.py:30 | the URL pattern fails to match exactly when the URL is empty or starts with `/`. A match skips one of the six scheme/`www.` prefixes and takes a non-empty `/`-free run that ends at a `/` or at the end. A longer prefix is given up only when no host can follow it |
| Utils.ShortenUrl | pdc_task1/utils.py:30-31 | an empty URL, or one that starts with `/`, comes back unchanged; any other URL gives a non-empty result without `/` |
| Utils.ShortenUrlTakesHost | pdc_task1/utils.py:30-31 | for every `scheme + www + host + rest` (scheme `https://`, `http://` or none; `www.` or none; a `/`-free host; `rest` empty or starting with `/`) the result is the host, provided no unwritten prefix could be read from the host itself |
| Utils.BrowserSpan | pdc_task1/utils.py:45 | the browser pattern fails exactly when no non-whitespace character is directly followed by `/` and then a digit or `.`. Otherwise the group starts at the leftmost possible start and ends at the last `/` the greedy run can reach |
| Utils.Browser | pdc_task1/utils.py:48 | `"Unknown"` when the browser pattern does not match; otherwise a non-empty string without whitespace |
| Utils.BrowserOfLeadingToken | pdc_task1/utils.py:45 | a user agent that begins `<token>/<version>`, followed by whitespace or the end, names `token` as its browser, even when `token` itself contains `/` |
| Utils.OsSpan | pdc_task1/utils.py:46 | the OS pattern fails exactly when no `(` is followed by one or more non-`)` characters and a `)`. Otherwise the group lies between the leftmost such `(` and the first `)` after it |
| Utils.OperatingSystem | pdc_task1/utils.py:49 | `"Unknown"` when the OS pattern does not match; otherwise a non-empty string without `)` |
| Utils.OsOfFirstGroup | pdc_task1/utils.py:46 | when the first `(` opens a non-empty group closed by `)`, that group is the operating system |
| Utils.ExtractBrowserAndOs | pdc_task1/utils.py:45-51 | the browser is group 1 of the leftmost browser match, and the OS is group 1 of the leftmost OS match. Each is `"Unknown"` when its own pattern does not match, whatever the other pattern does |
| Utils.ExtractFromEmpty | pdc_task1/utils.py:45-51 | the empty user agent gives `("Unknown", "Unknown")` |
| Text.Strip | pdc_task1/app.py:68 | the result is a slice of the input with only whitespace before and after it, and it neither starts nor ends with whitespace. It is empty exactly when every character is whitespace |
| Text.StripIdempotent | pdc_task1/app.py:68 | stripping a stripped string changes nothing |
| Columns.FFill | pdc_task1/app.py:51-60 | the length is kept and present cells are kept. A missing cell takes the nearest earlier present value, and is missing exactly when no cell up to it is present |
| Columns.ForwardFillUnique | pdc_task1/app.py:51-60 | any column with the forward-fill properties equals `FFill` of the input |
| Columns.FFillComplete | pdc_task1/app.py:51-60 | a column with no missing cell is left as it is |
| Columns.FFillIdempotent | pdc_task1/app.py:51-60 | filling a filled column changes nothing |
| Columns.Mode | pdc_task1/app.py:64-66 | there is no mode exactly when no cell is present, which is where `iloc[0]` raises. The mode occurs in the column; no value occurs more often, and a value that occurs as often is larger |
| Columns.ModeUnique | pdc_task1/app.py:64-66 | at most one value has the mode property, so the mode is determined |
| Columns.ModeTieTakesSmallest | pdc_task1/app.py:64-66 | in the column `["b", "a"]` the mode is `"a"`, the smaller value, although `"b"` comes first |
| Columns.ImputeTimeZone | pdc_task1/app.py:68 | the length and the missing cells are kept. A present cell becomes its stripped value, or the mode when it strips to `""` |
| Columns.ImputeCity | pdc_task1/app.py:69 | cells equal to `""` become the mode; every other cell is unchanged |
| Columns.ImputeKeepsMode | pdc_task1/app.py:64-69 | a column that has a mode still has one after either imputation |
| Columns.ImputeTimeZoneIdempotent | pdc_task1/app.py:68 | with a non-empty, stripped value put in, imputing the time zones again changes nothing, whatever the second mode is |
| Columns.ImputeCityIdempotent | pdc_task1/app.py:69 | imputing the cities again changes nothing when the value put in is non-empty, or when it is `""` and the second pass also puts in `""` |
| App.DeriveError | pdc_task1/app.py:50-61 | an empty file raises `KeyError('a')`. A `TypeError` is only raised for `a`, `r` or `u`, a timestamp failure only for `t` or `hc` and only when timestamps are converted, and no `IndexError` is raised here |
| App.DeriveErrorFirst | pdc_task1/app.py:51-60 | the derivations run in the order `a`, `r`, `u`, `cy`, `ll`, `tz`, `t`, `hc`. When the derivation of one key raises and none before it does, its error is the one reported: `KeyError(k)` when no record carries `k`, otherwise `TypeError(k)` for an extractor key and a timestamp failure for `t` or `hc` |
| App.DerivableNoneRaises | pdc_task1/app.py:51-60 | the records are derivable exactly when none of the eight derivations raises |
| App.DeriveErrorExactly | pdc_task1/app.py:50-61 | the derivations raise nothing exactly when every record holds `a`, `r` and `u` (and `t` and `hc` when they are converted), and some record carries each of `cy`, `ll`, `tz`, `t` and `hc` |
| App.Process | pdc_task1/app.py:50-61 | the result is an error exactly when `DeriveError` reports one, and it is that error. Otherwise it is the processed frame, with one cell per record in every column |
| App.ProcessNoRecords | pdc_task1/app.py:51 | a file with no records fails with `KeyError('a')` |
| App.ProcessedAgentColumns | pdc_task1/app.py:51-52 | when processing succeeds, every record has a user agent, and row i holds the browser and operating system of record i, untouched by the fill |
| App.ProcessedUrlColumns | pdc_task1/app.py:53-54 | when processing succeeds, row i of `from_url` and `to_url` holds the shortened `r` and `u` of record i |
| App.ProcessedFilledColumns | pdc_task1/app.py:55-60 | `city`, `latitude`, `longitude`, `time_in` and `time_out` are forward fills of one cell per record, in record order. `time_zone` is `tz` copied cell by cell without a fill |
| App.ProcessedLocalTimes | pdc_task1/app.py:59-60 | with human-readable times and a successful derivation, row i holds the local times of record i's own `t` and `hc` |
| App.ProcessedCoordinates | pdc_task1/app.py:56-57 | a record whose `ll` is a two-element list of present values has `ll[0]` as its latitude and `ll[1]` as its longitude |
| App.Imputed | pdc_task1/app.py:63-69 | imputation fails exactly when `time_zone` or `city` has no present cell, with `IndexError` naming the first such column |
| App.ImputedIdempotent | pdc_task1/app.py:68-69 | when the time-zone mode put in is non-empty and already stripped, imputing the imputed frame again changes nothing, whatever the city mode is |
| App.Frame.Impute | pdc_task1/app.py:64-69 | fails exactly when `Imputed` does, with the same error and the frame unchanged. Otherwise the frame becomes `Imputed` of the old frame: only `time_zone` and `city` are replaced |
| App.ProcessFile | pdc_task1/app.py:50-69 | the result is an error exactly when the derivations or the imputation fail, and it carries that error. Otherwise it is the imputed processed frame, with one row per record |

## Left out

- The click command, directory globbing, reading and parsing each line with `json.loads`, deleting an old CSV, writing the CSV and echoing a message (`app.py` lines 11-46 and 71-75). These are I/O. A file enters the model as its sequence of parsed records.
- Utils.ConvertTimestamp: the human-readable branch depends on the host's time zone and C library. It is the parameter `localTime`, and its formatting is not modelled.
- Utils.ConvertTimestamp: the `OverflowError`/`OSError` that `datetime.fromtimestamp` raises for out-of-range timestamps is not modelled.
- Utils.BrowserSpan: `\d` is modelled as the ASCII digits. Python's `\d` on `str` also matches other Unicode decimal digits.
- JSON values of the wrong type, such as a number under `a` or a string under `t`, are not modelled. A text key holds a string, a time key holds an integer, and any key may be absent or `null`.
- pandas dtypes and the distinction between NaN and `None`. A missing cell is `None` whatever produced it.
- Latitude and longitude are a generic type `C` that is only copied, never computed with, so float semantics are not modelled.
- A missing user agent or URL reaching an extractor is modelled as the `TypeError` it raises. The exact exception pandas reports for it is not modelled.
