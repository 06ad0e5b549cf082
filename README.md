# DeepMITRE input guard, modelled in Dafny

This project models the part of DeepMITRE's `src/utils.py` that decides
whether uploaded NetFlow records are safe to forward to the classification
service, and how often that service may be called:

- **`NetflowValidator`** — the four field checks. `validate_ip` is Python's
  `ipaddress.ip_address`, modelled for IPv4 dotted decimal and the IPv6 text
  forms of section 2.2 of RFC 4291 (`ipaddr.dfy`). `validate_timestamp` is
  `datetime.strptime` under three formats, tried in order (`timestamps.dfy`).
  `validate_port` and `validate_numeric` are an `isinstance(x, (int, float))`
  test followed by a comparison (`netflow.dfy`).
- **`sanitize_dataframe`** (`sanitize.dfy`) runs three steps:
  - it relabels the columns with `name.lower().strip()`;
  - it walks the rows, appending one error per failed check in a fixed field
    order. The first missing column ends that row's checks and appends a
    missing-column error;
  - it strips `<...>` tags from every cell of the text (`object`) columns with
    `re.sub(r'<[^>]*>', '', x)`.

  A table is a value here: the operation works on a copy and returns the copy
  and the errors, unless the stripping step raises `TypeError` (below).
- **`RateLimiter`** (`ratelimit.dfy`) is a class holding a queue of admitted
  call times. Each call first evicts the timestamps at the head of the queue
  that are at least `time_window` old. It refuses the call when `max_calls`
  timestamps remain, and otherwise records the call.

The Python string operations the code relies on (`str.isspace`, `str.lower`,
`str.strip`, `str.split`, `str(int)`) are written out in `pytext.dfy`.
`options.dfy` holds the `Option` type.

Some of the code's behaviour is easy to misread; the model follows the code:

- Tag stripping applies to every cell of an `object` column after `astype(str)`.
  That is text, but also numbers and missing values sitting in such a column,
  which come out as their text (`nan` for a missing value).
- After `" Src_IP "` and `"src_ip"` both normalise to `src_ip`, `row['src_ip']`
  is a Series. Every check fails on it, and the error carries all the cells.
  If either of those columns is a text column and the table has a row, the
  stripping step then raises `TypeError`: `clean_df['src_ip']` is a DataFrame,
  and its `apply` hands `re.sub` a whole column. Nothing is returned, and the
  errors collected so far are lost.
- A refused call still keeps the eviction it made.
- A `<script>` element's body is kept: `<script>alert(1)</script>benign`
  becomes `alert(1)benign`. Only the tags are removed.

## Model

| member | source | states |
|---|---|---|
| PyText.SkipSpaces | src/utils.py:117 | the scan from the front stops at the first non-whitespace character, and everything skipped is whitespace |
| PyText.BackSpaces | src/utils.py:117 | the scan from the back stops after the last non-whitespace character, and everything skipped is whitespace |
| PyText.Strip | src/utils.py:117 | `strip()` leaves neither a leading nor a trailing whitespace character |
| PyText.Lower | src/utils.py:117 | `lower()` keeps the length and maps each character to its lower-case form, leaving whitespace as whitespace |
| PyText.LowerOfLowered | src/utils.py:117 | lowering text that has no upper-case letter leaves it unchanged |
| PyText.StripIsSlice | src/utils.py:117 | what `strip()` keeps is a contiguous slice of the label, and everything removed on either side is whitespace |
| PyText.StripKeepsNoUpper | src/utils.py:117 | stripping a lower-cased label leaves it lower-cased |
| PyText.StripOfStripped | src/utils.py:117 | stripping text with no surrounding whitespace leaves it unchanged |
| PyText.NatText | src/utils.py:125 | `str()` of a natural number is its decimal digits, with no leading zero, and reads back as the number |
| PyText.Split | src/utils.py:80 | `split(sep)` gives at least one piece |
| PyText.SplitPiecesExclude | src/utils.py:80 | no piece of a split holds the separator |
| PyText.JoinSplit | src/utils.py:80 | splitting an address on a separator and joining the pieces back gives the text again |
| PyText.SplitJoin | src/utils.py:80 | splitting the join of separator-free pieces gives back exactly those pieces |
| IpAddress.ParseOctet | src/utils.py:80 | an accepted octet is at most 255 |
| IpAddress.ParseOctetCanonical | src/utils.py:80 | an accepted octet is written in its canonical decimal form (no leading zero): its text is the decimal text of its value |
| IpAddress.ParseOctetsMeaning | src/utils.py:80 | the pieces parse as a whole exactly when each one is an octet, and then piece by piece |
| IpAddress.Ipv4Canonical | src/utils.py:78-83 | every text accepted as IPv4 is four octets, each at most 255, and is exactly their dotted-decimal rendering |
| IpAddress.Ipv4RoundTrip | src/utils.py:78-83 | any four octets of at most 255, written in dotted decimal, are accepted and parse back to the same octets |
| IpAddress.FullIpv6Accepted | src/utils.py:78-83 | eight hextets of one to four hex digits joined by ':' are an accepted IPv6 address |
| IpAddress.Ipv4IsNotIpv6 | src/utils.py:78-83 | an accepted IPv4 text holds no ':' and is not also an IPv6 text |
| IpAddress.NoColonNotIpv6 | src/utils.py:78-83 | a text without ':' is never accepted as IPv6, with or without a '%' zone |
| IpAddress.NoSeparatorNotIp | src/utils.py:78-83 | a text with neither '.' nor ':' is no address at all |
| IpAddress.PrivateAddressAccepted | src/utils.py:78-83 | "192.168.1.1" is a valid address |
| IpAddress.LoopbackAccepted | src/utils.py:78-83 | "::1" is a valid address |
| IpAddress.OutOfRangeOctetsRejected | src/utils.py:78-83 | "999.999.999.999" is rejected, since an octet exceeds 255 |
| IpAddress.WordRejected | src/utils.py:78-83 | "not-an-ip" is rejected |
| Timestamps.MatchField | src/utils.py:93 | a directive's value comes from the first of its alternatives that matches at the position |
| Timestamps.ParseDate | src/utils.py:93 | a parsed date has month 1..12, day 1..31 and a four-digit year, with the format's separator at index 4 |
| Timestamps.ParseTime | src/utils.py:93 | a parsed time has hour at most 23 and minute at most 59, as the directives' expressions allow |
| Timestamps.ParseWith | src/utils.py:93 | whatever `strptime` accepts under a format is a date and time `datetime` can hold (real day of the month, seconds up to 59) |
| Timestamps.FirstFormatMeaning | src/utils.py:89-97 | the formats are tried in list order: the result is the first format that parses, and None means none does |
| Timestamps.RenderRoundTrip | src/utils.py:68-72 | every valid date and time, written in any of the three formats, is accepted by that format and read back unchanged |
| Timestamps.DateRoundTrip | src/utils.py:68-72 | a date written as `%Y<sep>%m<sep>%d` reads back as that date, whatever text follows it |
| Timestamps.TimeRoundTrip | src/utils.py:68-72 | a time written as `%H:%M:%S` reads back as that time |
| Timestamps.DistinctFormats | src/utils.py:68-72 | two formats that differ in the date separator, or as blank against 'T' between date and time, never both parse one text |
| Timestamps.FormatsExclusive | src/utils.py:68-72 | no text parses under two of the three formats |
| Timestamps.TimestampFormatUnique | src/utils.py:89-97 | a text is a timestamp exactly when some format parses it, and the ordered search stops at that format |
| Timestamps.IntegerTextNotTimestamp | src/utils.py:89-97 | the text of an integer is never a timestamp |
| Timestamps.DayFirstRejected | src/utils.py:89-97 | "13/01/2024" (day first, year last) is rejected |
| Timestamps.SpaceSeparatedAccepted | src/utils.py:89-97 | "2024-01-15 10:30:00" is accepted by the first format |
| Timestamps.IsoSeparatedAccepted | src/utils.py:89-97 | "2024-01-15T10:30:00" is accepted, by the second format and not the first |
| Timestamps.NonLeapDayRejected | src/utils.py:89-97 | "2023-02-29 10:00:00" passes the patterns but is rejected, because February 2023 has 28 days |
| Netflow.Magnitude | src/utils.py:86-87 | a cell has a finite comparable value exactly when it is an `int`, a `bool` or a `float` other than NaN and the two infinities |
| Netflow.PortAcceptedIff | src/utils.py:85-87 | a port is accepted if and only if it is a finite number comparing within 0..65535; neither infinity is accepted |
| Netflow.NumericAcceptedIff | src/utils.py:99-101 | a counter is accepted if and only if it is a finite number comparing at least 0, or `inf`; `-inf` is refused |
| Netflow.PortIsNumeric | src/utils.py:85-101 | every accepted port is an accepted counter; a counter that is not a port is above 65535 or is `inf` |
| Netflow.TextIsNotANumber | src/utils.py:86-87 | text is refused by the port and counter checks whatever it spells, because the type test comes first |
| Netflow.PortExamples | src/utils.py:74-87 | 0 and 65535 are accepted, -1 and 65536 are refused, 80.5 is accepted, and the text "80", NaN, `inf` and `-inf` are refused |
| Netflow.NumericExamples | src/utils.py:99-101 | 0, 1.5 and `inf` are accepted; -1, the text "5", NaN and `-inf` are refused |
| Netflow.IntegerTextNotIp | src/utils.py:125-128 | the `str()` of an integer cell is never a valid address |
| Netflow.MissingValueText | src/utils.py:125-138 | a missing value reads as "nan", which is neither an address nor a timestamp |
| Sanitize.NormalizeName | src/utils.py:117 | a normalised label has no upper-case letter and no surrounding whitespace |
| Sanitize.NormalizeIdempotent | src/utils.py:117 | normalising a label twice gives the same result as normalising it once |
| Sanitize.NormalizeColumns | src/utils.py:115-117 | the relabelled table keeps the column count and gives each column its own label normalised |
| Sanitize.RenameLabel | src/utils.py:117 | `rename(columns={old: new})` changes every column labelled `old`, and no other |
| Sanitize.StripExample | src/utils.py:117 | `strip()` turns " src_ip " into "src_ip" |
| Sanitize.NormalizeExample | src/utils.py:117 | " Src_IP " and "src_ip" normalise to the same label |
| Sanitize.RenameColumns | src/utils.py:115-117 | the loop of `rename` calls, one per original label, leaves every column with its own normalised label |
| Sanitize.RenameStep | src/utils.py:115-117 | one `rename` keeps the relabelling in step, even when it renames a column that was renamed before |
| Sanitize.PositionsEmptyIff | src/utils.py:125 | no column position is found for a label exactly when no column has that label |
| Sanitize.LookupAbsentIff | src/utils.py:125 | `row[name]` raises `KeyError` exactly when no column has the label |
| Sanitize.PositionsUnique | src/utils.py:125 | a label carried by one column alone is found at that column's position only |
| Sanitize.LookupMeaning | src/utils.py:125 | `row[name]` raises `KeyError` exactly when no column has the label; a label held by column `k` alone gives `row[k]`; a single cell found is the cell of a column carrying the label |
| Sanitize.FieldErrors | src/utils.py:123-147 | one row adds at most one error per required field |
| Sanitize.TableErrorsBound | src/utils.py:122-147 | the table adds at most one error per required field and row |
| Sanitize.FieldErrorsEmptyIff | src/utils.py:122-147 | a row adds no error if and only if every required column is present and passes its check |
| Sanitize.ReportedCell | src/utils.py:124-144 | the single cell an invalid-value error reports is the cell of a column carrying the field's label |
| Sanitize.InvalidValueAt | src/utils.py:124-144 | each invalid-value error names the row being checked and is one required field's report: that field's description and the value `row[name]` gave for it, which failed its check |
| Sanitize.FieldErrorsShape | src/utils.py:123-147 | in one row's errors, every invalid-value error names that row and is one field's report of the value `row[name]` gave, and a missing-column error can only come last |
| Sanitize.MissingColumnAt | src/utils.py:146-147 | a missing-column error is the last error of its row and names a column the table does not have |
| Sanitize.FirstMissingCutsRow | src/utils.py:123-147 | the first absent required column ends the row: the errors of the earlier fields, then one missing-column error, then nothing |
| Sanitize.RowMissingCount | src/utils.py:146-147 | a row reports at most one missing column, and exactly one when a required column is absent |
| Sanitize.TableMissingCount | src/utils.py:122-147 | a table missing a required column reports it once per row; a table with all of them reports none |
| Sanitize.TableErrorsEmptyIff | src/utils.py:122-147 | the table adds no error if and only if no row does; an empty table adds none |
| Sanitize.CleanRowsCleanTable | src/utils.py:122-147 | when no row adds an error, no prefix of the table adds one |
| Sanitize.DirtyRowDirtyTable | src/utils.py:122-147 | one row with an error makes the table's error list non-empty |
| Sanitize.TableInvalidValueAt | src/utils.py:122-144 | each invalid-value error of the table names one of its rows and is one field's report of the value `row[name]` gave on that row before stripping |
| Sanitize.TableRowOrderAt | src/utils.py:122-144 | of two invalid-value errors, the later one never names an earlier row |
| Sanitize.TableErrorsShape | src/utils.py:122-147 | every invalid-value error names a row of the table and is one field's report of that row's value, and errors are listed row by row in order |
| Sanitize.AddressTextPasses | src/utils.py:125-126 | a text cell holding a valid address passes the `src_ip` check |
| Sanitize.SecondFieldMissing | src/utils.py:123-147 | a row holding only the first field, which passes, stops at the second field with one missing-column error |
| Sanitize.OneRowTable | src/utils.py:122-147 | a one-row table reports that row's errors, numbered 0 |
| Sanitize.MissingDestination | src/utils.py:122-147 | a one-column table labelled as `src_ip` with a valid address reports only the missing `dest_ip` column |
| Sanitize.MissingDestinationExample | src/utils.py:122-147 | the table with column " Src_IP " holding "192.168.1.1" reports exactly the missing `dest_ip` column |
| Sanitize.ValidateFields | src/utils.py:123-147 | the checks of one row, in field order and stopping at the first missing column, append exactly that row's error list |
| Sanitize.ValidateRows | src/utils.py:122-147 | the row loop appends each row's errors after those of the rows before it |
| Sanitize.StripTagsSubsequence | src/utils.py:152 | stripping only removes characters: the result is a subsequence of the input |
| Sanitize.StripTags | src/utils.py:152 | removing tags never makes the text longer |
| Sanitize.StripTagsTagFree | src/utils.py:152 | no '<' in the result is followed anywhere later by a '>', so nothing the expression could match is left |
| Sanitize.StripTagsKeepsTagFree | src/utils.py:152 | text with nothing tag-like in it is left unchanged |
| Sanitize.StripTagsIdempotent | src/utils.py:152 | stripping twice gives the same result as stripping once |
| Sanitize.StripTagsDropsTag | src/utils.py:152 | a tag, from '<' to the first '>' after it, is removed whole |
| Sanitize.StripTagsPlainPrefix | src/utils.py:152 | text before the first '<' passes through unchanged |
| Sanitize.ScriptExample | src/utils.py:152 | `<script>alert(1)</script>benign` becomes `alert(1)benign` |
| Sanitize.SanitizeObjectCell | src/utils.py:150-152 | a cell of a text column becomes tag-free text drawn, in order, from the cell's `str()` |
| Sanitize.PositionsTwo | src/utils.py:150-152 | a label carried by two columns is found at two or more positions |
| Sanitize.LabelSharedIff | src/utils.py:150-152 | `clean_df[col]` finds more than one column exactly when another column carries the same label |
| Sanitize.StripObjectColumns | src/utils.py:149-152 | the column loop raises `TypeError` exactly when the table has a row and a text column shares its label; otherwise it rewrites exactly the text columns and leaves the numeric ones as they were |
| Sanitize.SanitizedShape | src/utils.py:104-154 | the result keeps the rows and column types, gives every column its normalised label, leaves numeric cells unchanged, and makes every text cell tag-free text drawn from the original |
| Sanitize.SanitizeIdempotent | src/utils.py:104-154 | sanitising an already sanitised table changes nothing, and raises exactly when sanitising the original did |
| Sanitize.SanitizeDataFrame | src/utils.py:104-154 | raises `TypeError` exactly when the table has a row and a text column shares its normalised label; otherwise returns the sanitised copy, with the errors computed from the relabelled but unstripped cells |
| Sanitize.DuplicateTextLabelRaises | src/utils.py:115-152 | a table with a row whose text column " Src_IP " sits beside a column "src_ip" makes the stripping loop raise |
| Sanitize.DistinctLabelsReturn | src/utils.py:115-152 | labels that stay distinct after normalisation never make the stripping loop raise |
| RateLimiting.Evict | src/utils.py:56-57 | eviction never lengthens the queue |
| RateLimiting.EvictDropsOldPrefix | src/utils.py:56-57 | eviction keeps a suffix of the queue: every dropped timestamp was at least a window old, and the new head is recent |
| RateLimiting.EvictIsRecent | src/utils.py:55-57 | on a queue in time order, eviction keeps exactly the timestamps inside the window |
| RateLimiting.EvictInWindow | src/utils.py:55-57 | after eviction, a queue in time order holds only timestamps inside the window |
| RateLimiting.AdmitOutcome | src/utils.py:56-62 | a call is refused exactly when the evicted queue is full; a refused call records nothing, and an admitted one appends only its own time and stays within `max_calls` |
| RateLimiting.AdmittedIff | src/utils.py:53-62 | on a queue in time order, a call is admitted if and only if fewer than `max_calls` calls were admitted in the last `time_window` |
| RateLimiting.EvictSorted | src/utils.py:56-57 | eviction keeps a queue in time order |
| RateLimiting.AdmitSorted | src/utils.py:53-62 | with a clock that never runs backwards, an admission keeps the queue in time order |
| RateLimiting.AdmitBounded | src/utils.py:53-62 | an admission never leaves more than `max_calls` timestamps in a queue that held at most that many |
| RateLimiting.AdmitPreserves | src/utils.py:53-62 | with a clock that never runs backwards, the queue stays in time order and never holds more than `max_calls` |
| RateLimiting.AdmitInWindow | src/utils.py:53-62 | after an admission, every stored timestamp is less than `time_window` old |
| RateLimiting.RateLimiter.constructor | src/utils.py:44-48 | a new limiter has its limits and an empty queue |
| RateLimiting.RateLimiter.TryAdmit | src/utils.py:53-62 | the locked block moves the queue and answer to what one admission specifies, and keeps the queue invariant |
| RateLimiting.RateLimiter.Call | src/utils.py:50-64 | the wrapped function runs, and its value is returned, only when the call is admitted; otherwise the rate-limit exception is the outcome |
| RateLimiting.ApiRateLimiter | src/utils.py:156 | the API limiter allows 100 calls per 60 seconds and starts empty |
| RateLimiting.TwoPerMinute | src/utils.py:53-62 | with 2 calls per 60 s: calls at 0 and 10 are admitted, one at 20 is refused, and one at 60 is admitted again |

## Left out

- The threading lock is not modelled. Each `TryAdmit` call is one atomic step, and the model has no concurrent callers.
- `time.time()` is not modelled. The clock reading is the `now` parameter, in whole seconds, so fractional times are not represented.
- `@wraps` and the forwarding of `*args`/`**kwargs` are reduced to one argument of a function parameter.
- `src/app.py` is not part of this model. That covers the upload page, the column-presence and row-count policy, and the HTTP call to the classification service.
- The HTML/CSS strings in `src/utils.py` (`styling`, `schema_information`) are presentation text, so they are left out.
- Netflow.Cell: the text Python's `str()` gives a float is carried with the value as data, not computed.
- Netflow.Cell: pandas dtype inference and the NumPy scalar types `iterrows` may hand out (for example `numpy.int64`, which is not an `int` to `isinstance`) are not modelled; cells are Python values.
- Sanitize.FieldErrors: the error messages' text is not rendered. Errors are structured values (description, row, value, or missing column name), and the printed form of a Series is never a valid address or timestamp.
- Sanitize.TableErrors: rows are numbered by position, which is the row label only for pandas' default index.
- Sanitize.SanitizedFrame: on a table with no row, pandas' `apply` only probes the stripping function with an empty Series and swallows the `TypeError` that raises, so nothing raises; the column types pandas then gives the columns behind a shared text label are not modelled, and the model keeps the types it was given. The text of the `TypeError` is not modelled either.
- Sanitize.Frame: column labels are strings; a non-string label (on which `lower()` raises) is not represented.
- PyText.Lower: only ASCII and Latin-1 upper-case letters are lowered; other Unicode case mappings are not modelled.
- Timestamps.ValidTimestamp: `\d` in Python's patterns also matches non-ASCII decimal digits, but the model accepts ASCII digits only. Locale-dependent directives are not used by these formats.
- IpAddress.ValidIp: the IPv6 scope identifier is accepted as any non-empty text without '%' or '/'.
