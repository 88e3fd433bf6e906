# ezbookkeeping balance report — a Dafny model

`main.go` logs in to an ezbookkeeping server and fetches the account list. It splits the accounts into assets
and liabilities. It writes one CSV table per bucket and builds an HTML report with one
table per bucket. If the mail settings allow, it mails the report. This project models the
deterministic part of that pipeline and proves what each step promises:

- `Category` — `AccountCategory.String`: codes 1..9 have fixed names, every
  other code is "Unknown"; `CodeOf` reads a name back.
- `Decimal` — `%.*f` of the exact quotient `minor / 10^exp`, plus the parser
  `ParseFixed` that reads such a text back to `(minor, exp)`.
- `Currency` — the ISO 4217 exponent table `currencyExponents`, the
  upper-cased lookup with default 2, and `convertBalance`.
- `Accounts` — the `Account` record and the split loop of `main`
  (`Partition`), against a reference definition `Select`.
- `CsvExport` — the in-memory `csvData` that `exportToCSV` builds, with a row
  decoder `DecodeRow` as its round-trip partner.
- `HtmlReport` — `generateHTMLTable` as a record (placeholder or rows with a
  CSS class per balance cell) and `getBalanceClass`.
- `Config` — flags first, then the environment of the config file for the
  empty settings, then validation of URL, login name and password.
- `Email` — the send/warn/skip gate and the message `sendReportEmail` builds,
  with the sender defaulting to the SMTP username.
- `Pipeline` — `main` from configuration to the mail decision, with the two
  HTTP calls as one input.

Balances are integers in minor units. The source decodes them into `float64`
and prints `balance / 10^exp` with `%.*f`; the model prints the exact
quotient. Within float64 the division is off by at most half a unit in the last
place, which stays below half a minor unit while |balance| is under 2^46 · 100
at exponent 2, 2^43 · 1000 at exponent 3, and 2^53 at exponent 0. Below those
bounds the two texts agree. Above them they can differ: 7036874417766401 at
exponent 2 is "70368744177664.01" exactly, but float64 prints "70368744177664.02".

## Model

| member | source | states |
|---|---|---|
| Category.Label | main.go:56-80 | codes 1..9 get the nine names in code order, every other integer gets "Unknown" |
| Category.CodeOf | main.go:57-80 | a text reads back to a code only if it is one of the nine names, and then to that name's code |
| Category.LabelRoundTrip | main.go:44-80 | the name of a named code reads back to the code; an unnamed code prints "Unknown", which reads back to nothing |
| Category.LabelInjective | main.go:57-80 | two codes print the same name only when they are equal or both unnamed |
| Currency.UpperChar | main.go:375 | a-z move up by 32, dotless i becomes 'I' and long s becomes 'S', every other character is unchanged; the result is an ASCII capital exactly for those and for A-Z |
| Currency.Upper | main.go:375 | upper-casing keeps the length and maps each character on its own |
| Currency.UpperIdempotent | main.go:375 | upper-casing twice is upper-casing once |
| Currency.ExponentOf | main.go:374-378 | the exponent is the table entry for the upper-cased code, 2 for a code not in the table, and always 0, 2 or 3 |
| Currency.ExponentClasses | main.go:86-89 | exponent 0 exactly for JPY, 3 exactly for JOD, KWD and OMR, 2 for every other code |
| Currency.ExponentCaseInsensitive | main.go:375 | a code and its upper-cased form have the same exponent |
| Currency.SameCodeSameExponent | main.go:375 | codes that differ only in letter case have the same exponent |
| Currency.ConvertBalance | main.go:374-382 | the text parses back to the balance at the currency's exponent, and has a point followed by exactly that many digits when the exponent is positive and no point otherwise |
| Currency.ConvertBalanceUnique | main.go:374-382 | the converted text is the only text that parses to the balance at the currency's exponent, so the contract fixes the text |
| Decimal.FixedPoint | main.go:379-381 | the text starts with '-' exactly for a negative amount and parses back to the same amount and exponent |
| Decimal.UnsignedTextParses | main.go:381 | the text of a non-negative amount starts with a digit, has no redundant leading zero and parses back to it |
| Decimal.ParseFixedExact | main.go:381 | the parser accepts exactly one text per amount and exponent: no leading zero before a longer whole part, no "-" before zero; that text is the one `FixedPoint` prints |
| Decimal.UnsignedExact | main.go:381 | an unsigned text the parser accepts is the printed text of its value |
| Decimal.FixedPointShape | main.go:381 | a point exactly when the exponent is positive, followed by exactly exponent digits |
| Decimal.FixedPointValue | main.go:379-381 | the number the text denotes is minor / 10^exp |
| Decimal.FixedPointInjective | main.go:381 | different amounts at one exponent print differently |
| Currency.ConvertJpy | main.go:374-382 | 500 JPY prints "500" |
| Currency.ConvertKwd | main.go:374-382 | 12345 KWD prints "12.345" |
| Currency.ConvertUsd | main.go:374-382 | 999 USD prints "9.99" |
| Currency.ConvertUsdCents | main.go:374-382 | 1050 USD prints "10.50" (the trailing zero is kept) |
| Currency.ConvertUnknown | main.go:374-382 | 1050 in a code not in the table prints "10.50" |
| Currency.ConvertNegativeLowerCase | main.go:374-382 | -5 "usd" prints "-0.05": lower case is looked up, and the sign sits before the zero-padded amount |
| Accounts.BucketOf | main.go:212-216 | an asset flag sends an account to assets; a liability flag without an asset flag sends it to liabilities; no flag drops it |
| Accounts.Partition | main.go:209-217 | the loop's two slices are the input's assets and the input's liabilities, in input order |
| Accounts.SelectAppend | main.go:211-217 | the bucket of a concatenation is the concatenation of the buckets |
| Accounts.SelectMembers | main.go:209-217 | an account is in a bucket exactly when it is in the input and its flags select that bucket |
| Accounts.BucketsDisjoint | main.go:212-216 | no account is in both buckets; one with both flags is an asset only; one with neither flag is in neither |
| Accounts.SelectConserves | main.go:209-217 | assets, liabilities and dropped accounts together are the input, as a multiset |
| Accounts.SelectIsSubsequence | main.go:209-217 | each bucket keeps the relative order of the input |
| CsvExport.BoolText | main.go:404-405 | a flag prints as "true" or "false", and the word reads back to the flag |
| CsvExport.Row | main.go:394-408 | a data row has the header's eight fields and reads back to the account's ID, name, currency, amount, category, flags and comment |
| CsvExport.CsvData | main.go:387-409 | the table is the fixed header followed by one eight-field row per account, in input order, each reading back to its account |
| CsvExport.CsvRoundTrip | main.go:387-409 | reading the whole table back gives one view per account, in order |
| CsvExport.UsdCentsRow | main.go:394-408 | an uncategorised USD asset of 1050 exports "10.50", "Unknown", "true", "false" |
| HtmlReport.RowOf | main.go:352-366 | the balance cell is "negative" exactly for a liability; the balance text parses back to the amount; name, currency and comment are the account's; the category is the code's name, and "Unknown" for an unnamed code |
| HtmlReport.TableOf | main.go:344-371 | an empty list gives exactly the placeholder; otherwise one row per account, in order |
| HtmlReport.TableClasses | main.go:354-357 | row i of a table is classed "negative" exactly when account i is a liability |
| HtmlReport.BalanceClass | main.go:336-341 | "positive" exactly for values at or above zero |
| HtmlReport.FlagClassMatchesSign | main.go:336-357 | when the flag agrees with the sign, the table's flag class and the sign class of the amount are the same |
| Config.EnvToInt | main.go:239-250 | an empty or unscannable value gives the default, otherwise the scanned number |
| Config.OrEnv | main.go:154-156 | a non-empty flag value wins, an empty one takes the environment's value |
| Config.FillFromEnv | main.go:153-180 | the port is refilled only when it is 0, and then from SMTP_PORT with default 587; debug, print and the config path are untouched |
| Config.Merge | main.go:144-184 | fails exactly when a required setting is missing and the file exists but does not load; never overwrites a flag; reads the environment only when a required setting is missing and the file loaded |
| Config.Resolve | main.go:144-191 | success exactly with the merged settings when URL, login name and password are all set after the merge, and then no flag is overwritten; the missing-setting error exactly when the merge left one of them empty; the load error is the merge's own |
| Config.EnvIgnoredUnlessConsulted | main.go:145-146 | when the file is not consulted, the environment does not affect the result |
| Config.CompleteFlagsResolveToThemselves | main.go:145-191 | with URL, login name and password on the command line, the settings are the flags themselves |
| Config.EmptyFlagsTakeEnv | main.go:153-180 | once the file is consulted, every empty string setting takes its variable's value |
| Config.NoFileNoRescue | main.go:181-191 | without a config file, a missing required setting stops the run |
| Email.SenderOf | main.go:255-258 | the From address is the configured sender, or the SMTP username when no sender is configured |
| Email.Decide | main.go:226-234 | send exactly when recipient, host and username are set; warn exactly when the recipient is set and host or username is missing; the message carries the sender, recipient, fixed subject, HTML body and dialer settings |
| Email.MailFromEnvironment | main.go:153-180 | with the mail settings empty on the command line and present in the config file's environment, the report is sent to that recipient through that host and user, from the configured sender or else the SMTP username |
| Email.FlagsDecideMailUnlessConsulted | main.go:145-146 | when the config file is not read, the mail decision is the command line's own, and no recipient on the command line means no mail |
| Pipeline.Run | main.go:141-235 | a configuration error or a failed fetch ends the run; otherwise the two CSV tables and two HTML tables are those of the assets and liabilities buckets, and the mail decision is taken on the resolved settings |
| Pipeline.SingleUsdAsset | main.go:209-221 | one uncategorised USD asset of 1050 gives an assets CSV of the header and one row with "10.50", and a liabilities CSV of the header alone |

## Left out

- The HTTP calls (`getAuthToken`, `fetchAccountList`, `dumpRequest`, `dumpResponseHeaders`) and JSON decoding are network I/O. `Pipeline.Run` takes their result as one input.
- Writing the CSV files and echoing them to the console (`os.Create`, `encoding/csv` quoting, the tab-separated echo) is file and console I/O. Only the in-memory rows are modelled.
- SMTP delivery (`gomail`'s `DialAndSend`) is a foreign library and a network call, so its failure path is not modelled. `Email.Decide` produces the message that would be sent.
- Flag parsing, `os.Stat`, `godotenv.Load` and `os.Getenv` are inputs: the flag values, a three-way file state and an environment map.
- Config.EnvToInt: `fmt.Sscanf(val, "%d", …)` is a parameter `scan`, because the library's scanning rules are not part of the program.
- `calculateTotalBalances` and the summary block of `generateHTMLReport` are left out. They add float64 amounts, iterate a Go map in random order and print `time.Now()`. As written, "Total Assets" is `total - liabilityTotal` and "Net Assets" is `(total - liabilityTotal) + liabilityTotal`, so the net always equals the asset total. An asset total of 1000.00 against liabilities of -200.00 reports a net of 1000.00, not 800.00. Only currencies that occur among the assets get summary lines, and totals are keyed by the currency text as given, not upper-cased.
- The HTML page template, CSS and `fmt.Sprintf` markup are not modelled. Tables are records, and `Pipeline.Run` takes the finished page text as an input for the mail body. Names and comments are not HTML-escaped in the source, and the model does not change that.
- Currency.ConvertBalance: takes the balance as an integer number of minor units, while the source holds a float64. Fractional minor units, -0.0 and NaN are not modelled, and neither is the float64 rounding that changes the text from |balance| of 2^46 · 100 at exponent 2 (2^43 · 1000 at exponent 3) on.
- Decimal.FixedPoint: fixes the exact decimal text of minor / 10^exp. The source gets its text from a float64 division rounded by `%.*f`, which agrees only below the bounds given above.
- HtmlReport.BalanceClass: takes an exact real. The float64 NaN case, which the source classes "negative", is not modelled.
- Currency.Upper: exact for every character whose upper case is an ASCII letter: a-z, dotless i (U+0131) and long s (U+017F). Other characters are left unchanged, where Go's `strings.ToUpper` may map them to other non-ASCII characters. Such characters cannot produce a table key either way.
- The `-debug` and `-print` flags are carried through the settings unchanged. The logging and printing they switch on is I/O.
