# ssl-cert-check: expiry pipeline in Dafny

A functional model of the expiry computation in `ssl-cert-check`, a certificate-expiry monitor. The monitor reads a list of configured certificate sources: remote TLS endpoints (`URL`), PEM files (`PEM`), PKCS#12 bundles (`PKCS`) and Java KeyStores (`JKS`). For each certificate it computes the signed number of whole days until the certificate's `notAfter`. It publishes that number as a Prometheus gauge cell labelled `(certName, certAlias, certPath)`.

The model has six modules, one file each:

- `Results` (`results.dfy`): the `Option` and `Result` wrappers. `None` or `Failure` stands for a Python exception.
- `Calendar` (`calendar.dfy`): the proleptic Gregorian calendar.
  - `DaysFromCivil` is the closed-form day count since 1970-01-01. It uses the leap-year count `y/4 - y/100 + y/400` and the cumulative month table.
  - Lemmas prove it equal to independent year-by-year and month-by-month sums, and prove it strictly increasing in the date.
- `NotAfter` (`not_after.dfy`): reading the GeneralizedTime text `YYYYMMDDHHMMSSZ` (section 4.1.2.5.2 of RFC 5280) as `datetime.strptime(text, '%Y%m%d%H%M%SZ')` reads it, and turning it into epoch seconds.
  - `Format` is its inverse. Round trips are proved in both directions.
- `Expiry` (`expiry.dfy`): the day count `int((expiry - today_midnight) / 86400)`.
  - It truncates toward zero, never floors.
  - The reference instant is midnight of `date.today()`.
- `Decoders` (`decoders.dfy`): the four decoders of `FindDaysToExpire.py`. Each one's I/O is reduced to an abstract `Content`. All four share the single extractor `Expiry.DaysToExpire`.
- `Collector` (`collector.dfy`): the refresh route `main()` of `app.py`.
  - It dispatches on the type string and walks the configuration list in order.
  - Its state is `certs_data` plus a gauge map that is never cleared.
  - A failing source aborts the pass.

Inputs that were I/O in the program are parameters of the model:

- The clock is `now`, the current instant in seconds since the epoch on a UTC host.
- What opening a source yields is `fetch: SourceConfig -> Content`.
- The gauge the process keeps between requests is the `gauge` argument of `Refresh`.

Three behaviours of the code are modelled as written, where a design-level reading would expect otherwise:

- **Failures are not isolated.** `main()` has no exception handling. The first decoder that raises aborts the pass, and the route fails with an internal server error (`Reply.ServerError`). Gauge writes made by earlier sources stay in the process-wide gauge.
- **Unsupported types are not skipped cleanly.** An unrecognised `type` only prints a message. The loop then re-publishes the previous source's `certs_data` under the unsupported source's `name` and `path`. When the unsupported source is first, `certs_data` is still `{}` and nothing is written.
- **Cells are never removed.** A cell no source writes keeps its last value indefinitely.

## Model

| member | source | states |
|---|---|---|
| `Calendar.DaysBeforeYearCounts` | python/FindDaysToExpire.py:15 | The closed-form count of days before 1 January of any year equals the sum of 365- and 366-day years between it and 1970, under the Gregorian leap rule (divisible by 4, except centuries not divisible by 400) |
| `Calendar.DaysBeforeMonthCounts` | python/FindDaysToExpire.py:15 | The cumulative month table plus the leap-day adjustment equals the sum of the lengths of the preceding months |
| `Calendar.DaysFromCivilIncreasing` | python/FindDaysToExpire.py:15 | A strictly later valid calendar date has a strictly larger day count, so the conversion is injective |
| `Calendar.NextDay` | python/FindDaysToExpire.py:15 | The last day of a month and the first day of the next month are one day apart, including across a year end |
| `NotAfter.ParseTimestamp` | python/FindDaysToExpire.py:15 | Reading is the inverse of `Format`: a text that reads as `t` is fifteen characters, the fourteen digits of `Format(t)` and a `Z` or `z`, and every such text of a valid `t` reads as exactly `t`. It fails unless the text is fourteen digits and `Z`/`z` whose fields form a valid date and time |
| `NotAfter.Parse` | python/FindDaysToExpire.py:15 | The instant exists exactly when the text reads as a timestamp. Its whole-day part is the calendar day count of that date, and its remainder is the seconds since midnight |
| `NotAfter.ParseFormat` | python/FindDaysToExpire.py:15 | Every valid timestamp is read back from its own `YYYYMMDDHHMMSSZ` text, and its instant is `DaysFromCivil(Y,M,D)*86400 + h*3600 + m*60 + s` |
| `NotAfter.FormatParse` | python/FindDaysToExpire.py:15 | Any text that parses is the canonical text of the fields it yields, except possibly the case of the final `Z` |
| `NotAfter.ParseRejectsInvalid` | python/FindDaysToExpire.py:15 | Fourteen digits and a `Z` whose fields are out of range make the parse fail instead of yielding an instant |
| `NotAfter.ParseIncreasing` | python/FindDaysToExpire.py:15 | Of two parseable texts, the one with the later calendar date denotes the strictly later instant |
| `NotAfter.RejectsMonth13` | python/FindDaysToExpire.py:15 | Month 13 fails |
| `NotAfter.RejectsFebruary29InCommonYear` | python/FindDaysToExpire.py:15 | 29 February 2023 fails |
| `NotAfter.AcceptsFebruary29InLeapYear` | python/FindDaysToExpire.py:15 | 29 February 2024 parses, to 1709164800 |
| `NotAfter.RejectsHour24` | python/FindDaysToExpire.py:15 | Hour 24 fails |
| `NotAfter.RejectsLeapSecond` | python/FindDaysToExpire.py:15 | Second 60 fails. `strptime`'s pattern admits it, but `datetime` rejects it |
| `NotAfter.RejectsYearZero` | python/FindDaysToExpire.py:15 | Year 0000 fails, because `datetime` starts at year 1 |
| `NotAfter.AcceptsEitherCaseZ` | python/FindDaysToExpire.py:15 | The final `Z` is accepted in upper or lower case, because `strptime` matches case-insensitively: `20300101000000Z` and `20300101000000z` both read as 1893456000 |
| `Expiry.WholeDays` | python/FindDaysToExpire.py:19 | For a seconds difference `diff`, the day count `d` satisfies `abs(d)*86400 <= abs(diff) < (abs(d)+1)*86400`, and `d` is 0 or has the sign of `diff`. This is truncation toward zero |
| `Expiry.WholeDaysUnique` | python/FindDaysToExpire.py:19 | Those two conditions determine the day count uniquely |
| `Expiry.WholeDaysMonotone` | python/FindDaysToExpire.py:19 | A larger seconds difference never gives fewer days |
| `Expiry.Midnight` | python/FindDaysToExpire.py:16 | The reference instant is a whole multiple of 86400 and lies in the 86400 seconds up to and including the clock reading |
| `Expiry.DaysLeft` | python/FindDaysToExpire.py:16-19 | The days remaining bound the signed distance from today's midnight to the expiry, within one day, with matching sign |
| `Expiry.DaysToExpire` | python/FindDaysToExpire.py:15-19 | The shared extractor yields a value exactly when the `notAfter` text parses, and that value obeys the one-day bound against the parsed instant. A non-zero answer is positive exactly when the expiry is after today's midnight |
| `Expiry.DaysLeftMonotone` | python/FindDaysToExpire.py:17-19 | For a fixed clock, a later expiry never yields fewer days remaining |
| `Expiry.DaysToExpireMonotone` | python/FindDaysToExpire.py:15-19 | For a fixed clock, of two parseable `notAfter` texts, the later instant never yields fewer days |
| `Expiry.SameDaySameAnswer` | python/FindDaysToExpire.py:16 | Two clock readings on the same UTC calendar day give the same answer for every `notAfter` |
| `Expiry.ExactDaysAhead` | python/FindDaysToExpire.py:16-19 | Expiry exactly `k` days after the clock reading reports exactly `k` |
| `Expiry.ExactDaysBehind` | python/FindDaysToExpire.py:16-19 | Expiry exactly `k` days before the reading reports `-k` at midnight and `-(k-1)` later that day |
| `Expiry.TruncatesTowardZero` | python/FindDaysToExpire.py:17-19 | Expired by less than a day reports 0. Expired by a day and a half reports -1, where floor division gives -2 |
| `Expiry.FixedExample` | python/FindDaysToExpire.py:15-19 | `20300101000000Z` read at noon on 1 January 2025 UTC gives exactly 1826 days |
| `Decoders.CertDays` | python/FindDaysToExpire.py:28-32 | An undecodable certificate fails. A decodable one yields a value exactly when its `notAfter` parses, and that value is the shared extractor's |
| `Decoders.LeafDays` | python/FindDaysToExpire.py:13-19 | A single-certificate decoder succeeds exactly when the fetch yields one certificate whose days compute. Its map then has the single key `path`, holding those days. Otherwise the error is the fetch's or the certificate's |
| `Decoders.RemoteExpiryDays` | python/FindDaysToExpire.py:11-20 | The remote decoder succeeds exactly when the endpoint yields one decodable certificate whose `notAfter` parses. Its map then has exactly one key, the configured `path`, whose value is the shared extractor's answer for the leaf certificate |
| `Decoders.PemDaysToExpire` | python/FindDaysToExpire.py:36-45 | The PEM decoder succeeds exactly when the file holds one decodable certificate whose `notAfter` parses. Its map then has exactly one key, the configured `path`, whose value is the shared extractor's answer for the file's certificate |
| `Decoders.PkcsDaysToExpire` | python/FindDaysToExpire.py:47-55 | The PKCS#12 decoder succeeds exactly when the bundle holds one decodable certificate whose `notAfter` parses. Its map then has exactly one key, the configured `path`, whose value is the shared extractor's answer for the bundle's certificate |
| `Decoders.JksDaysToExpire` | python/FindDaysToExpire.py:22-33 | A source that is not a keystore fails. A keystore with no private-key entries yields the empty map, not an error |
| `Decoders.Tally` | python/FindDaysToExpire.py:26-32 | On success, every key of the map is the alias of some entry whose days it holds. On failure, the error is that of some entry |
| `Decoders.TallySucceeds` | python/FindDaysToExpire.py:26-32 | The loop over private-key entries succeeds exactly when every entry's computation does |
| `Decoders.TallyKeys` | python/FindDaysToExpire.py:26-32 | On success, the key set is exactly the set of entry aliases |
| `Decoders.TallyValues` | python/FindDaysToExpire.py:26-32 | On success, each alias holds the days computed for the last entry carrying it |
| `Decoders.TallyFirstFailure` | python/FindDaysToExpire.py:26-32 | The first entry that fails decides the error |
| `Decoders.JksSucceeds` | python/FindDaysToExpire.py:22-33 | A keystore decodes exactly when every private-key entry has a non-empty chain whose leaf decodes with a parseable `notAfter` |
| `Decoders.JksAliasKeys` | python/FindDaysToExpire.py:22-33 | A keystore decodes exactly when every private-key entry does, and only a keystore decodes. The decoded map's keys are exactly the entries' aliases |
| `Decoders.JksFirstFailure` | python/FindDaysToExpire.py:22-33 | A keystore that fails fails with the error of its first failing entry |
| `Decoders.JksOnePerEntry` | python/FindDaysToExpire.py:26-32 | With distinct aliases, the result has one key per private-key entry and no other key. Each key holds the days of that entry's `cert_chain[0]` |
| `Decoders.EmptyKeyStore` | python/FindDaysToExpire.py:25-33 | A keystore without private-key entries answers the empty map |
| `Collector.TypeOf` | python/app.py:35-44 | The type is JKS, PEM, PKCS or URL exactly when the string is `'JKS'`, `'PEM'`, `'PKCS'` or `'URL'`. Every other string is unsupported |
| `Collector.Decode` | python/app.py:35-42 | A non-keystore type succeeds exactly when the source yields one decodable certificate whose `notAfter` parses, and its map is then `{path: days}` with the shared extractor's days. The keystore type is the keystore decoder's answer: it succeeds only on a keystore, exactly when every private-key entry decodes, and its keys are then exactly the entries' aliases |
| `Collector.DispatchByTag` | python/app.py:35-42 | Each of `'JKS'`, `'PEM'`, `'PKCS'` and `'URL'` runs its own decoder: the step succeeds exactly when that decoder does, and `certs_data` becomes that decoder's map |
| `Collector.Publish` | python/app.py:45-46 | For every alias of `certs_data`, the cell `(name, alias, path)` is set to its value. Every other cell keeps its value, and the key set only grows |
| `Collector.Run` | python/app.py:34-46 | A pass never removes a gauge cell, and an abort names a source of the list |
| `Collector.Refresh` | python/app.py:31-47 | The route answers `'Check the /metrics for more details'` exactly when the pass completes, with the gauge the pass left. Otherwise it is a server error carrying the gauge as it stood at the abort, naming a configured source. Either way no gauge cell is removed |
| `Collector.RunInOrder` | python/app.py:34-46 | A pass over `a + b` is a pass over `a` followed by a pass over `b` from the state `a` left. If `a` aborts, nothing of `b` runs |
| `Collector.StepFrame` | python/app.py:45-46 | A step changes only the cells `(name, alias, path)` of its own source for the aliases in the new `certs_data`: every other cell keeps its value if present and stays absent if absent |
| `Collector.UntouchedCellsKeepValues` | python/app.py:34-46 | A cell that no completed step of the pass sets keeps its value through the pass if it existed and is not created if it did not. This includes a cell of a source that still runs but no longer reports that alias |
| `Collector.NoTargetNoWrite` | python/app.py:45-46 | A cell whose name and path match no source of the list is set by no step of the pass |
| `Collector.StaleAliasKept` | python/app.py:35-46 | A source that succeeds without reporting an alias it reported before leaves that alias's old cell in place, with its old value |
| `Collector.SupportedSourcePublishes` | python/app.py:45-46 | After a supported source succeeds, its cell for each alias of the decoder's map holds that alias's days |
| `Collector.LastWriterWins` | python/app.py:46 | A cell keeps the value its latest writer set, whatever earlier sources wrote, unless a later step sets that same cell |
| `Collector.FailureAbortsRest` | python/app.py:34-46 | A source whose decoder raises aborts the pass at its index. Later sources are never visited, and the gauge holds exactly the writes of the earlier sources |
| `Collector.SecondOfThreeFails` | python/app.py:34-46 | Of three sources where the second fails, the route fails at index 1 with the gauge holding only the first source's writes |
| `Collector.UnsupportedFirstWritesNothing` | python/app.py:32-46 | An unsupported first source writes nothing, and the pass continues as if it were absent |
| `Collector.UnsupportedRepublishes` | python/app.py:43-46 | An unsupported source after others re-publishes the previous `certs_data` under its own name and path |
| `Collector.UnknownTypeInheritsPreviousAliases` | python/app.py:32-46 | After a PEM source, a source of unknown type gets a cell labelled with its own name and path and the PEM path as alias, holding the PEM certificate's days |

## Left out

- Certificate decoding and I/O are not modelled. This covers `ssl.get_server_certificate`, `OpenSSL.crypto.load_certificate`, `load_pkcs12`, `jks.KeyStore.load` and the file reads. They are foreign library calls and network or file I/O. They become the abstract `Content` returned by the `fetch` parameter: `Unreadable`, one `Cert`, or a keystore's private-key entries. A certificate is either `Cert(notAfter)` or `Undecodable`.
- The model does not distinguish error kinds. Connection, missing-file, wrong-passphrase and corrupt-container errors all collapse into `LoadFailed`, because the code never inspects them.
- A missing `port` or `passphrase` in a configuration entry is not modelled separately. It raises inside the decoder, so it is part of what `fetch` answers. A missing `type`, `name` or `path` key (a `KeyError` in `main()`) is not modelled: configuration entries always carry those fields.
- Local-time semantics of `strftime('%s')` are not modelled, because they depend on the platform and time zone. Both instants are read as UTC, and `date.today()` is the UTC day of the clock reading.
- The model reads the clock once per pass. The code calls `date.today()` once per decoder and once per keystore entry, so it can straddle midnight; the model does not cover that.
- `Expiry.WholeDays`: `int(x / 86400)` goes through a float in the code. The model uses exact integer truncation, because realistic second counts are far below 2^53 and the float quotient truncates to the same integer.
- `NotAfter.ParseTimestamp`: accepts only the fifteen-character form of fourteen ASCII digits and `Z` or `z`. `strptime`'s pattern would also accept one-digit fields, which shorten the text, and a space-padded day (` 1` for `01`), which keeps it at fifteen characters. For example, `strptime` reads the fourteen-character `2030010100000Z` as 2030-01-01 00:00:00 (the seconds field takes one digit) and the fifteen-character `202301 1120000Z` as 2023-01-01 12:00:00, while the model rejects both. GeneralizedTime as RFC 5280 section 4.1.2.5.2 fixes it never has either form, so the model keeps to the all-digit form.
- Keystore private-key entries are a sequence in iteration order, not a dictionary. Duplicate aliases cannot occur in the code's dictionary. The model admits them, with the later entry winning, and `Decoders.JksOnePerEntry` assumes distinct aliases.
- The gauge stores floats. Day counts are small integers, so the map holds them as integers.
- `print('Format not supported')` is not modelled, because it is logging only.
- Loading the configuration list (`json_parser`, `app.py:33`) is not modelled. The list is a parameter of `Refresh`.
- The Flask app, the `/metrics` exposition, the Prometheus registry and the `getopt` command-line handling are not modelled. They are plumbing around the pass.
- `getExpiryDays.py`, `test-1.py` and `jsonParser.py` are not part of this model. The first is a near-duplicate of the decoders whose JKS and PEM variants return float quotients. The others are a print script and a JSON file reader.
- Concurrent requests to the route are not modelled. Each pass is modelled as one sequential fold.
