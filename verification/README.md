# Personal-finance ledger: exchange-rate engine and tables, in Dafny

This project models the core of a personal-finance ledger application and
proves properties of the model. The core has three parts.

- **The historical exchange-rate engine** (`src/modules/currency_exchange.rs`).
  - It keeps one daily rate table per currency against the euro, the base currency.
    The table is cached on disk and refreshed from the central bank's feed when its latest date is before today.
  - It expands each table to one row per calendar day, forward-filling gaps and nulls.
  - It answers the rate between two currencies on a day: the same currency, a direct table, the inverse table, or triangulation through the euro.
  - It converts the amounts of a ledger into one currency, row by row.
- **The ledger tables** (`src/modules/tables.rs`).
  - Income, expense, fund-movement, party, entity and account tables are append-only sequences of records.
  - The operations are id allocation (`next_id`), typed insertion that refuses the wrong transaction variant, deletion and lookup by party, and lookup by id.
  - The fund table stores a debit with its value negated and reads it back negated again.
- **The database façade** (`src/modules/database/mod.rs`).
  - `insert_party` routes each transaction of a party to its table under one fresh party id.
  - `delete_party` removes a party across tables, and `party` reassembles it.
  - Two string helpers: `capitalize_every_word` and the CSV post-process.
    The post-process pads one-decimal numbers and trims trailing newlines.

Representation:

- Dates are `int` day numbers and rates and amounts are `real`.
- A rate table is a `seq<Row>` of `(date, Option<real>)`.
- The engine is a pair of `map<string, Series>`, raw and expanded, keyed by the concatenated currency codes.
- Tables are sequences of record datatypes.
- "Today", the central bank's feed and the disk cache are parameters.
- Failures are `Result` values, including the source's assertion aborts (`TooEarly`, `TooLate`) and its panics (`EmptyWord`, `NotCharBoundary`).

Modules, one per file:

| file | module | models |
|---|---|---|
| `Wrappers.dfy` | `Wrappers` | `Option` and `Result` with the `:-` failure propagation |
| `Series.dfy` | `RateSeries` | `extreme_date`, `upsample`, `fill_null(Forward)`, `expand` |
| `Exchange.dfy` | `CurrencyExchange` | `key`, `download`, `load`, `init`, `save`, `exchange_currency`, `exchange_currencies` |
| `StringOrder.dfy` | `StringOrder` | the ascending string order and sorted duplicate-free lists (`unique` + `sort`) |
| `Tables.dfy` | `Tables` | the tables of `tables.rs` |
| `Database.dfy` | `Database` | `DataBase::new`, `insert_party`, `insert_transaction`, `delete_party`, `party` |
| `Text.dfy` | `TextFormat` | `capitalize_every_word`, the regex and trim of `data_frame_to_csv_string` |

The model follows the code where it departs from its evident intent:

- `save` stops at the first empty table instead of skipping it. See Findings.
- `load` refreshes from the cached latest date inclusive, so that date is fetched again and can appear twice in a raw table. `save` then writes the repeat, so later runs start from a cached table that repeats a date. See Findings.
- `extreme_date` fails on a MIN over a column with a null date. See Findings. The lookup and `Latest` use the corrected `ExtremeDate`. A row's date is never null in the model, so there the corrected and the as-written MIN agree (`ExtremeDateMinAgreesWithoutNulls`), and MAX always agrees (`ExtremeDateMaxAgrees`).
- `expand` leaves a leading null rate null, as the forward fill does.

## Model

| member | source | states |
|---|---|---|
| RateSeries.ExtremeDate | src/modules/currency_exchange.rs:114-126 | succeeds exactly when the date column holds a date, with a date of the column that is at most (MIN) or at least (MAX) every present date; otherwise fails with the empty-column error |
| RateSeries.ExtremeDateNullMinimum | src/modules/currency_exchange.rs:117-125 | as written, one null date makes MIN fail on a column that holds a valid date, where the intended result is that date |
| RateSeries.ExtremeDateMaxAgrees | src/modules/currency_exchange.rs:119-125 | MAX as written always equals the intended extremum: `None` sorts lowest, so it never wins a maximum |
| RateSeries.ExtremeDateMinAgreesWithoutNulls | src/modules/currency_exchange.rs:118-125 | on a column without nulls MIN as written equals the intended extremum, so every table of the engine is unaffected |
| RateSeries.SortedExtremes | src/modules/currency_exchange.rs:114-126 | in a date-sorted table the extremes are its first and last dates |
| RateSeries.Upsample | src/modules/currency_exchange.rs:100 | upsampling a non-empty table keeps its first and last rows, never drops a row and leaves no calendar day missing |
| RateSeries.UpsampleGapFree | src/modules/currency_exchange.rs:100 | a table that already has no missing day is unchanged by upsampling |
| RateSeries.UpsampleCoverage | src/modules/currency_exchange.rs:100 | with one row per date, the upsampled table has exactly one row per day from the first to the last date, carrying that day's observation |
| RateSeries.FillFromValues | src/modules/currency_exchange.rs:101 | forward filling keeps every present rate, gives a null the filled value of the row before it, and leaves a leading null null |
| RateSeries.FillFromIdempotent | src/modules/currency_exchange.rs:101 | forward filling twice is forward filling once |
| RateSeries.AddTodayFacts | src/modules/currency_exchange.rs:87-97 | appending today's row fails only on an empty table; otherwise it keeps the first row, keeps the table sorted exactly when it was, and makes the last date the later of the last date and today |
| RateSeries.Expand | src/modules/currency_exchange.rs:84-102 | `expand` succeeds exactly on a non-empty sorted table, failing with the empty-column or the unsorted error otherwise; the result is gap-free, starts on the first date and ends on the last date, or on today if that is later and `add_today` is set |
| RateSeries.ExpandIdempotent | src/modules/currency_exchange.rs:99-101 | expanding an expanded table without today's row returns it unchanged |
| RateSeries.ExpandTodayTwice | src/modules/currency_exchange.rs:87-101 | expanding with `add_today` twice on the same day is expanding once |
| RateSeries.ExpandCurrent | src/modules/currency_exchange.rs:87-97 | `add_today` has no effect on a table that already reaches today |
| RateSeries.ExpandCoverage | src/modules/currency_exchange.rs:99-101 | with one row per date, the expansion has one row per day from the first to the last date, keeps each observed rate, and gives a day without one the previous day's rate |
| RateSeries.ExpandExample | src/modules/currency_exchange.rs:99-101 | observations on days 1 and 5 expand to days 1 to 5 with days 2 to 4 carrying day 1's rate |
| RateSeries.LastKnownStep | src/modules/currency_exchange.rs:101 | the latest rate known on a day is that day's observation if there is one, and the previous day's latest otherwise |
| RateSeries.ExpandIsLastKnown | src/modules/currency_exchange.rs:84-102 | with one row per date, row `k` of the expansion is dated `first + k` and holds the latest rate observed on or before that day, up to the last date or today |
| RateSeries.ExpandNonZero | src/modules/currency_exchange.rs:99-101 | gap filling introduces no rate that was not present, so a table of nonzero rates stays nonzero |
| RateSeries.DayRateStrict | src/modules/currency_exchange.rs:99-101 | on a table with one row per date, the rate of a day's first row, or the latest before the day, is the latest rate observed on or before the day |
| RateSeries.FilledDaysAgree | src/modules/currency_exchange.rs:99-101 | upsampling a sorted table, dates repeating or not, then forward filling it gives each row with its rate (or the one carried in), followed by one row per missing day up to the next row, carrying that rate |
| RateSeries.ExpandFirstRow | src/modules/currency_exchange.rs:84-102 | on any sorted table, each day from the first date to the last (or today) has a first row in the expansion, holding the rate of the day's first row in the table, or the latest rate before the day when that row has none |
| CurrencyExchange.KeyInjective | src/modules/currency_exchange.rs:203-205 | for first codes of equal length, two keys are equal exactly when the pairs are |
| CurrencyExchange.KeyToBaseInjective | src/modules/currency_exchange.rs:203-205 | keys towards the euro are equal exactly when the currencies are |
| CurrencyExchange.Invert | src/modules/currency_exchange.rs:53 | the stored table has the observations' dates and null positions, and each stored rate times its observation is 1 |
| CurrencyExchange.InvertInvolution | src/modules/currency_exchange.rs:53 | inverting the stored rates gives the observations back |
| CurrencyExchange.InvertStrict | src/modules/currency_exchange.rs:53 | inversion keeps one row per date |
| CurrencyExchange.Download | src/modules/currency_exchange.rs:27-58 | `download` succeeds exactly when the feed answers, fails with the feed error otherwise, and its table inverts back to the feed's observations |
| CurrencyExchange.Latest | src/modules/currency_exchange.rs:73-74 | the latest date of a non-empty table is one of its dates and no date is later |
| CurrencyExchange.LoadAsWritten | src/modules/currency_exchange.rs:62-81 | an uncached pair fails; an empty cached table fails with the empty-column error; the cached rows are kept as a prefix; an up-to-date table is returned as cached; a stale one succeeds exactly when the feed answers from its latest date on, that date included, and the appended rows invert back to that answer |
| CurrencyExchange.LoadRefreshOrder | src/modules/currency_exchange.rs:74-78 | with a cache of one row per date and a feed that honours the start day, the refreshed table is in date order with one row per date, except that the latest cached date repeats, which happens exactly when the feed's first row falls on that date |
| CurrencyExchange.LoadRefreshSorted | src/modules/currency_exchange.rs:62-81 | with a sorted cached table and a feed that honours the start day, the refreshed table is sorted, whatever dates the cache already repeats |
| CurrencyExchange.LoadAsWrittenRepeatsLatest | src/modules/currency_exchange.rs:74-77 | refreshing a stale table from a feed that answers from the start day appends the latest cached day a second time, where a refresh from the next day would append the next day |
| CurrencyExchange.Prepare | src/modules/currency_exchange.rs:160-167 | a currency is prepared exactly when its table is obtained (loaded and refreshed from its latest date inclusive, or else fetched whole) and expands with today's row; the prepared pair is that table and its expansion |
| CurrencyExchange.Build | src/modules/currency_exchange.rs:155-172 | the loop succeeds exactly when every currency other than the euro is prepared; then it holds exactly one key per such currency, its prepared table and expansion; otherwise it fails with the error of the first currency, in enumeration order, that fails |
| CurrencyExchange.Init | src/modules/currency_exchange.rs:151-181 | `init` succeeds exactly when every currency other than the euro is prepared from the cache and feed, and then the engine holds those tables; otherwise it fails with the first failing currency's error |
| CurrencyExchange.InitNonZero | src/modules/currency_exchange.rs:155-172 | with a nonzero cache and feed, every raw and expanded table of an initialised engine holds nonzero rates |
| CurrencyExchange.InitOrdered | src/modules/currency_exchange.rs:155-172 | with a one-row-per-date cache and a feed that honours the start day, every raw table of an initialised engine is non-empty and in date order, with one row per date except that the latest cached date may appear twice where the refreshed rows begin |
| CurrencyExchange.ObtainSorted | src/modules/currency_exchange.rs:161-164 | with a sorted cache and a feed that honours the start day, every table `init` obtains, loaded and refreshed or fetched whole, is sorted |
| CurrencyExchange.PrepareSucceeds | src/modules/currency_exchange.rs:161-167 | with a sorted cache and a feed that honours the start day, a currency is prepared exactly when a non-empty table is obtained for it: the expansion never fails on dates out of order |
| CurrencyExchange.InitDailyRate | src/modules/currency_exchange.rs:161-171 | on an initialised engine whose raw table for the currency has one row per date, the rate of the currency towards the euro on a day is too early before its first date, too late after today or its last date, and otherwise the latest rate observed on or before the day |
| CurrencyExchange.InitDayRate | src/modules/currency_exchange.rs:161-171 | on any initialised engine, whether or not its raw table repeats a date, the rate of a currency towards the euro on a day is too early before the table's first date, too late after today or its last date, and otherwise the rate of the first row of the day, or the latest rate before the day when that row has none |
| CurrencyExchange.LookupOutcome | src/modules/currency_exchange.rs:220-239 | a direct lookup fails on an empty table, is too early before every date, too late after every date, gives the rate of the first row of the day (failing on a null), and fails on a day inside the range without a row |
| CurrencyExchange.LookupDaily | src/modules/currency_exchange.rs:222-239 | on a table with one row per day holding the latest known rate, the lookup is too early before the first day, too late after the last, and in between gives that day's latest known rate |
| CurrencyExchange.LookupExpanded | src/modules/currency_exchange.rs:220-239 | looking a day up in an expanded table gives the daily meaning of the raw table |
| CurrencyExchange.LookupExpandedSorted | src/modules/currency_exchange.rs:220-239 | looking a day up in the expansion of any sorted table, dates repeating or not, gives the first-row meaning of the raw table |
| CurrencyExchange.SortedDailyRateAgrees | src/modules/currency_exchange.rs:220-239 | on a table with one row per date, the first-row meaning and the latest-rate meaning of a lookup agree |
| CurrencyExchange.Rate | src/modules/currency_exchange.rs:208-246 | on pairs where the recursion ends and nonzero tables, every rate `exchange_currency` returns is nonzero |
| CurrencyExchange.Reciprocal | src/modules/currency_exchange.rs:241 | the reciprocal of a nonzero rate is nonzero and multiplies with it to 1; an error passes through unchanged |
| CurrencyExchange.Product | src/modules/currency_exchange.rs:243-244 | the product of two nonzero rates is nonzero and is their product; the first error passes through |
| CurrencyExchange.RateToBase | src/modules/currency_exchange.rs:220-239 | on an engine, the rate of a currency towards the euro is the lookup in its own table |
| CurrencyExchange.RateFromBase | src/modules/currency_exchange.rs:240-241 | the rate from the euro to a currency is the reciprocal of the currency's euro value, or its error |
| CurrencyExchange.RateCross | src/modules/currency_exchange.rs:242-245 | the rate between two currencies other than the euro is triangulated through the euro: the quotient of their euro values |
| CurrencyExchange.RateThroughBase | src/modules/currency_exchange.rs:208-246 | on an engine over three-letter codes the recursion always ends, the same currency gives 1, and every other pair gives the reference cross rate through the euro |
| CurrencyExchange.RateDefined | src/modules/currency_exchange.rs:208-246 | the rate between two currencies is defined exactly when they are equal or both euro values are defined |
| CurrencyExchange.RateQuotient | src/modules/currency_exchange.rs:208-246 | when both euro values are defined, the rate is their quotient |
| CurrencyExchange.InverseRates | src/modules/currency_exchange.rs:240-241 | the rate in one direction is defined exactly when the rate in the other is, and then it is its reciprocal |
| CurrencyExchange.CrossRates | src/modules/currency_exchange.rs:242-245 | when the rates from `a` to `b` and from `b` to `c` are defined, the rate from `a` to `c` is their product |
| CurrencyExchange.ParseCurrency | src/modules/currency_exchange.rs:271 | a code parses exactly when it names the euro or a currency of the enumeration, and fails with the unknown-code error otherwise |
| CurrencyExchange.ParseCode | src/modules/currency_exchange.rs:271 | parsing a currency's code gives the currency back |
| CurrencyExchange.ExchangeCurrencies | src/modules/currency_exchange.rs:260-283 | the conversion succeeds exactly when every row has a date, a parsable currency and a defined rate; then row `i` of the result keeps row `i`'s date and other columns, drops the currency, and has its amount times the rate; otherwise it fails with the first failing row's error |
| CurrencyExchange.ConvertToSame | src/modules/currency_exchange.rs:214-216 | a dated row already in the target currency converts at rate 1, keeping its amount |
| CurrencyExchange.ConvertBack | src/modules/currency_exchange.rs:260-283 | converting an amount from `a` to `b` and back gives the amount back |
| CurrencyExchange.Save | src/modules/currency_exchange.rs:184-199 | the corrected `save`: the disk afterwards holds every non-empty table under its key and keeps every other file as it was |
| CurrencyExchange.SaveStopsEarly | src/modules/currency_exchange.rs:185-188 | as written, an empty table met first keeps a later non-empty table from being written |
| CurrencyExchange.SaveAgrees | src/modules/currency_exchange.rs:184-199 | when no table is empty, `save` as written and the corrected `save` agree |
| CurrencyExchange.InitSaveComplete | src/modules/currency_exchange.rs:174-178 | saving after a successful `init` writes every raw table, under both `save` as written and the corrected one |
| CurrencyExchange.SaveLoadRoundTrip | src/modules/currency_exchange.rs:62-81 | loading, from the files `save` wrote, a non-empty table on a day its dates already reach gives the saved table back |
| CurrencyExchange.InitSaveSorted | src/modules/currency_exchange.rs:174-199 | the `save` after `init`, as written, leaves a sorted cache sorted, so the next run starts again from a sorted cache |
| StringOrder.Insert | src/modules/tables.rs:211-221 | inserting into an ascending duplicate-free list keeps it so, and its elements become the old ones plus the new string |
| StringOrder.SortedUnique | src/modules/tables.rs:211-221 | `unique` then `sort` gives an ascending list without duplicates holding exactly the strings of the input |
| StringOrder.SortedUniqueDetermined | src/modules/tables.rs:211-221 | two ascending duplicate-free lists with the same elements are equal, so the result is determined by the set of strings |
| Tables.NextId | src/modules/tables.rs:88-105 | `next_id` is 0 for an empty table and otherwise one more than the largest id, so it is above every id present |
| Tables.NextIdGrows | src/modules/tables.rs:88-105 | after appending the next id, the next id is one more |
| Tables.WithoutParty | src/modules/tables.rs:243-252 | `delete_party(p)` keeps exactly the rows whose party is not `p` |
| Tables.WithoutPartyAppend | src/modules/tables.rs:243-252 | deleting a party distributes over the concatenation of two tables, so kept rows keep their order |
| Tables.OfParty | src/modules/tables.rs:255-267 | `iter_party(p)` yields exactly the ids of the rows of party `p` |
| Tables.OfPartyColumn | src/modules/tables.rs:255-267 | `iter_party(p)` is the id column of the rows of `p`, in table order |
| Tables.OfPartyAfterDelete | src/modules/tables.rs:243-267 | after `delete_party(p)`, `iter_party(p)` yields nothing |
| Tables.WithoutPartyAscending | src/modules/tables.rs:243-252 | deleting a party keeps the ids strictly ascending |
| Tables.FindById | src/modules/tables.rs:270-327 | the lookup by id fails exactly when no row has the id, and otherwise gives the first row with it |
| Tables.InsertLedger | src/modules/tables.rs:174-209 | the income and expense `insert_transaction` refuse any other variant with the wrong-table error; otherwise they append one row with `next_id`, the party id and the transaction, keeping every earlier row (and likewise at tables.rs:391-426) |
| Tables.LedgerTransaction | src/modules/tables.rs:270-327 | `transaction(id)` fails exactly when no row has the id, and otherwise reads back a transaction of the table's variant (and likewise at tables.rs:487-538) |
| Tables.LedgerRoundTrip | src/modules/tables.rs:174-327 | a transaction of the table's variant, inserted and read back under the allocated id, is the transaction inserted |
| Tables.Categories | src/modules/tables.rs:211-221 | `categories` is ascending without duplicates and holds exactly the categories of the rows |
| Tables.Subcategories | src/modules/tables.rs:223-240 | `subcategories(c)` is ascending without duplicates and holds exactly the subcategories of the rows of category `c` |
| Tables.CategoriesCanonical | src/modules/tables.rs:211-221 | the category list is the only ascending duplicate-free list of the table's categories |
| Tables.SubcategoriesIgnoreOthers | src/modules/tables.rs:223-240 | rows of other categories do not change `subcategories(c)` |
| Tables.InsertFund | src/modules/tables.rs:594-644 | the fund table refuses incomes and expenses; it appends a credit with its value and a debit with its value negated, under `next_id` and the party id, keeping every earlier row |
| Tables.FundTransaction | src/modules/tables.rs:674-726 | `transaction(id)` of the fund table fails exactly when no row has the id, and otherwise reads back a credit or a debit |
| Tables.FundRoundTrip | src/modules/tables.rs:594-726 | a credit or a debit inserted and read back by its id is the transaction inserted: the sign flip undoes itself |
| Tables.InsertPartyRow | src/modules/tables.rs:768-779 | `insert_party` appends one row with the next id and the party's creation date |
| Tables.NewEntityTable | src/modules/tables.rs:815-825 | a new entity table holds one placeholder row with id 0 |
| Tables.InsertEntity | src/modules/tables.rs:842-857 | `insert_entity` appends one row under the id it returns, which is above every earlier id and one more than the largest |
| Tables.EntityById | src/modules/tables.rs:860-896 | `entity(id)` fails exactly when no row has the id |
| Tables.FirstEntityId | src/modules/tables.rs:815-857 | the first entity inserted into a new table gets id 1 |
| Tables.EntityRoundTrip | src/modules/tables.rs:842-896 | an inserted entity is read back under the id returned |
| Tables.NewAccountTable | src/modules/tables.rs:945-956 | a new account table holds one placeholder row with id 0 and a zero balance |
| Tables.InsertAccount | src/modules/tables.rs:973-989 | `insert_account` appends one row under the id it returns, which is above every earlier id and one more than the largest |
| Tables.AccountById | src/modules/tables.rs:992-1034 | `account(id)` fails exactly when no row has the id |
| Tables.FirstAccountId | src/modules/tables.rs:945-989 | the first account inserted into a new table gets id 1 |
| Tables.AccountRoundTrip | src/modules/tables.rs:973-1034 | an inserted account is read back under the id returned |
| Database.NewDataBase | src/modules/database/mod.rs:55-71 | a new database has empty transaction and party tables and one placeholder entity and account, and satisfies the invariant that every transaction's party exists |
| Database.InsertTransaction | src/modules/database/mod.rs:113-132 | each variant goes to its table, the income, expense or fund table, which grows by its row; the other tables are unchanged |
| Database.InsertTouchesOneTable | src/modules/database/mod.rs:113-132 | inserting a transaction changes exactly the table of its variant |
| Database.InsertParty | src/modules/database/mod.rs:102-111 | `insert_party` appends exactly one party row, with the party id taken before the transactions are inserted; entities and accounts are unchanged |
| Database.LedgerAfterInsertAll | src/modules/database/mod.rs:102-107 | after inserting a party's transactions, an income or expense table is the old one followed by one row of the party for each transaction of its variant, in order, with ids still ascending |
| Database.FundsAfterInsertAll | src/modules/database/mod.rs:102-107 | the same for the fund table and the credits and debits |
| Database.FreshPartyHasNoRows | src/modules/database/mod.rs:103 | under the invariant, the id `insert_party` takes owns no row in any table |
| Database.InsertPartyValid | src/modules/database/mod.rs:102-111 | `insert_party` keeps the invariant |
| Database.DeleteParty | src/modules/database/mod.rs:211-218 | `delete_party(p)` removes exactly the rows of `p` from the income, expense, fund and party tables and leaves entities and accounts unchanged |
| Database.DeletePartyValid | src/modules/database/mod.rs:211-218 | `delete_party` keeps the invariant |
| Database.InsertThenDelete | src/modules/database/mod.rs:211-218 | deleting a party just inserted restores the database |
| Database.PartyOf | src/modules/database/mod.rs:220-233 | `party(p)` holds one transaction per id `iter_party` yields in the three tables, dated today; `PartyReadsRows` fixes its contents |
| Database.PartyAlwaysReads | src/modules/database/mod.rs:220-233 | every id `iter_party` yields is in its table, so `party(p)` never fails |
| Database.PartyReadsRows | src/modules/database/mod.rs:220-233 | on any database keeping the invariant, whatever other parties it holds, `party(p)` is exactly the transactions of p's income rows, then its expense rows, then its fund movement rows, each in table order |
| Database.ReadLedgerRows | src/modules/database/mod.rs:222-227 | with ascending ids, reading rows back by their ids gives the rows' own transactions |
| Database.GroupingIsPermutation | src/modules/database/mod.rs:220-233 | grouping the transactions by table (incomes, then expenses, then fund movements) loses and invents no transaction |
| Database.PartyRoundTrip | src/modules/database/mod.rs:220-233 | reading back a party just inserted gives its transactions grouped by table, incomes then expenses then fund movements, each group in the order entered |
| Database.PartyAfterDelete | src/modules/database/mod.rs:211-233 | after `delete_party(p)`, `party(p)` has no transactions |
| TextFormat.Split | src/modules/database/mod.rs:39 | `split(' ')` yields at least one piece, and no piece contains a space |
| TextFormat.JoinSplit | src/modules/database/mod.rs:39-42 | joining the pieces with single spaces gives the string back |
| TextFormat.SplitJoin | src/modules/database/mod.rs:39-42 | splitting a join of space-free words gives the words back |
| TextFormat.AsciiUpper | src/modules/database/mod.rs:40 | uppercasing a one-byte character changes exactly `a` to `z`, each to its capital |
| TextFormat.CapitalizeWord | src/modules/database/mod.rs:40 | a word keeps its length and its tail, and its first character is uppercased |
| TextFormat.CapitalizeWords | src/modules/database/mod.rs:40-41 | the words are capitalised in order when each can be sliced at 1; otherwise the first one that cannot panics, with the empty-word or the char-boundary panic |
| TextFormat.CapitalizeEveryWord | src/modules/database/mod.rs:34-43 | `capitalize_every_word` succeeds exactly when every space-separated piece starts with a one-byte character; then the result is as long as the sentence, has as many pieces, and each piece has its first character uppercased and the rest kept |
| TextFormat.CapitalizeIdempotent | src/modules/database/mod.rs:34-43 | capitalising twice is capitalising once |
| TextFormat.PadDecimalsComplete | src/modules/database/mod.rs:22-28 | after the replacement no number has a single decimal before a comma or a newline |
| TextFormat.PadDecimalsFixpoint | src/modules/database/mod.rs:22-28 | a text without one-decimal numbers, such as one whose numbers have two or more decimals, is left unchanged |
| TextFormat.PadDecimalsIdempotent | src/modules/database/mod.rs:22-28 | the replacement applied twice is applied once |
| TextFormat.PadDecimalsField | src/modules/database/mod.rs:22-28 | the replacement works field by field: a field followed by a comma or a newline gets a `0` appended exactly when it ends in a point and one digit, is kept as it is otherwise (two or more decimals included), and the rest of the text is replaced on its own |
| TextFormat.PadDecimalsLastField | src/modules/database/mod.rs:22-28 | a last field, with no comma or newline after it, is kept as it is |
| TextFormat.TrimNewlines | src/modules/database/mod.rs:30 | `trim_end_matches("\n")` removes exactly the trailing newlines: the result is a prefix without a final newline, followed in the input only by newlines |
| TextFormat.TrimAppendedNewlines | src/modules/database/mod.rs:30 | newlines appended to a text are trimmed away again |
| TextFormat.CsvPostProcess | src/modules/database/mod.rs:22-31 | the result is the replaced text up to its trailing newlines: a prefix of it followed there only by newlines, with no one-decimal number and no final newline |

## Left out

- The network, the CSV files and the dataframe library are not modelled.
  - The feed is a function parameter, and the disk cache and the files `save` writes are a map from key to table.
  - The CSV parsing and writing of `download`, `load`, `save` and `Table::try_load`/`save`/`init` are not modelled.
  - `Local::now()` is a parameter.
- `src/modules/financial.rs` is not part of this model.
  - Its `Currency` enumeration is the list of codes passed to `init`.
  - Its `Transaction` and `Party` are modelled from their uses.
  - `Party::iter` is taken to yield the transactions in order, `Party::new` to date the party today, and `add_transaction` to append.
- The test-only constructor `CurrencyExchange::new` and the `test_*` wrappers are left out.
- The `DataBase` methods other than the ones above are left out: `init`, `save`, `size`, and the entity and account wrappers.
- `EntityTable`/`AccountTable` `iter`, `countries` and `subtypes` are left out.
- The GUI, plotting, summaries and views are left out.
- Floating point is replaced by exact reals: no rounding, NaN or infinity.
  - Rates are required to be nonzero wherever `exchange_currency` divides (`FeedNonZero`, `DiskNonZero`, `NonZeroRates`).
- Integers are unbounded: the `i64` overflow of `next_id` on a table at `i64::MAX` is not modelled.
- Failures of the dataframe library inside a table (a null id, a missing column, an unparsable `Currency::from_str` in `transaction`) are not modelled.
  - Rows always carry their columns.
- CurrencyExchange.Rate: requires `Resolvable`, the pairs on which the source's recursion ends whatever the day and the rates. When `from` has no table to or from the euro, the source recurses without end. When only `to` has none, the recursion ends only if the lookup of `from` towards the euro fails first, at the `?` of currency_exchange.rs:243. Such pairs are not modelled.
- CurrencyExchange.RateThroughBase: holds for engines whose codes all have three letters (`ValidCodes`), as the ISO codes of the enumeration do. Only then can no key built from two codes collide with a key towards the euro.
- CurrencyExchange.LoadRefreshOrder: assumes a feed that answers with one row per date, from the start day on (`FeedFromStart`). It also assumes a cached table with one row per date. The program's own `save` breaks that assumption: after one stale refresh the saved table repeats a date (`LoadAsWrittenRepeatsLatest`). So the lemma covers only the first refresh of a table. For every later run, `LoadRefreshSorted` states what survives: a sorted cache stays sorted.
- CurrencyExchange.InitOrdered: makes the same assumptions as `LoadRefreshOrder`, so it too covers only a cache the program has not yet saved after a stale refresh. For the cache the program keeps, `DiskSorted` holds run after run (`InitSaveSorted`), and `PrepareSucceeds` says when `init` succeeds on it.
- CurrencyExchange.InitDailyRate: stated only for a raw table with one row per date, which a stale refresh does not give. `InitDayRate` states the rate for every initialised engine, repeated dates included.
- CurrencyExchange.Build: takes the enumeration order of `Currency::iter()` as the order of the sequence given.
- CurrencyExchange.Save: takes the iteration order of the map as a parameter, since `HashMap` order is unspecified.
- RateSeries.Upsample: an unsorted table is modelled as a failure (`UnsortedDates`), as the dataframe library refuses to upsample one. Rows sharing a date are kept side by side.
- TextFormat.IsDigit: only the ASCII digits are modelled for the regex's `\d`. The written CSV numbers contain no other Unicode digits.
- TextFormat.AsciiUpper: `to_uppercase` is modelled on one-byte characters only. A word starting with a longer character already panics at `&word[..1]`.

## Findings

| source | as written | input that shows it | evidently intended | confidence | as-written member | corrected member |
|---|---|---|---|---|---|---|
| src/modules/currency_exchange.rs:117-125 | `iterator.min()` over `Option<NaiveDate>` items, then `flatten` | a date column `[null, day 5]` with MIN: `None` is the least item, so the minimum is `None` and the call fails "no valid dates" | the least date present, failing only when no date is present, as the error message says | not executed | RateSeries.ExtremeDateNullMinimum | RateSeries.ExtremeDate |
| src/modules/currency_exchange.rs:185-188 | `return Ok(())` at the first empty table | tables `USDEUR = []` then `GBPEUR = [day 1]`, iterated in that order: nothing is written | skip the empty table and write the others | not executed | CurrencyExchange.SaveStopsEarly | CurrencyExchange.Save |
| src/modules/currency_exchange.rs:74-77 | the refresh asks the feed for rows from the cached latest date, that date included, and appends them; the engine is modelled with this refresh | cached `[day 1]`, today day 3, a feed answering from the start day: the raw table becomes `[day 1, day 1]` | possibly a fetch from the day after the latest cached date, so that each date appears once; otherwise the repeat is tolerated, since the lookup takes the first row of a day (`CurrencyExchange.InitDayRate`) | not executed; low, as the repeat may be deliberate | CurrencyExchange.LoadAsWrittenRepeatsLatest | CurrencyExchange.LoadOneRowPerDay |
