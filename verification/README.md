# Beancount core, modelled in Dafny

This project models the pure, sequential core of the beancount double-entry
accounting system and proves properties of the model. The modelled pieces are:

- the account-name algebra: split, join, parent, leaf, root, common prefix,
  the ancestor chain, `is_valid` and `has_component`;
- the entry getters: folds over a list of directives gathering accounts,
  components, tags, payees, dates, years and open/close directives;
- the price map: building `(base, quote) -> ascending (date, rate)` series from
  Price directives with the inverse pair synthesised, and the lookups on it;
- realization reduced to local balances, with `transfer`, `summarize`,
  `open_at_date` and `compare_realizations`;
- the implicit-prices plugin, which adds a Price after every transaction for
  each posting price or cost it implies;
- the V1-to-V2 syntax converter's line rewrites.

Modules, one per file:

| file | module | models |
|---|---|---|
| `wrappers.dfy` | `Wrappers` | `Option` and `Result` |
| `strings.dfy` | `Strings` | `str.split`/`str.join` on one separator, string order, sorting |
| `dates.dfy` | `Dates` | calendar dates, validity, day ordinal, the next day |
| `data.dfy` | `Data` | amounts, postings and the union of directive kinds |
| `account.dfy` | `Account` | `beancount/core/account.py` |
| `getters.dfy` | `Getters` | `src/python/beancount/core/getters.py` |
| `prices.dfy` | `Prices` | the price map pinned by `src/python/beancount/core/prices_test.py` |
| `realization.dfy` | `Realization` | local balances and `compare_realizations` |
| `summarize.dfy` | `Summarize` | `open_at_date`, `transfer`, `summarize` |
| `summarize_examples.dfy` | `SummarizeExamples` | the ledgers of `src/python/beancount/core/tests/summarize_test.py` |
| `implicit_prices.dfy` | `ImplicitPrices` | `src/python/beancount/plugins/implicit_prices.py` |
| `v1tov2.dfy` | `V1ToV2` | `src/python/beancount/scripts/v1tov2.py` |

Numbers are `real`, which stands for Python's `Decimal`. Reciprocals are
therefore exact. Dates are `(year, month, day)` records, ordered
lexicographically. The day ordinal of `Dates.Ordinal` agrees with
`date.toordinal()`.

The implementations of the price map, realization, `transfer`, `summarize`
and `open_at_date` are not part of this model. Their behaviour is taken from
the test suites cited below and from the library's documented design. Their
code lines are cited as the test lines that pin them.

## Model

| member | source | states |
|---|---|---|
| Strings.SplitJoin | beancount/core/account.py:42-61 | splitting the join of a non-empty list of separator-free components gives the list back |
| Strings.JoinSplit | beancount/core/account.py:42-61 | joining the split of any name gives the name back |
| Account.Join | beancount/core/account.py:42-50 | `join` gives a name whose split is the components again, for every non-empty list of separator-free components |
| Account.Split | beancount/core/account.py:53-61 | a name always splits into at least one component, and no component holds the separator |
| Account.Parent | beancount/core/account.py:64-77 | `parent` drops exactly the last component; a one-component name has the empty parent; the empty name has none; the parent is strictly shorter |
| Account.Leaf | beancount/core/account.py:80-89 | `leaf` is the last component: a separator-free suffix that starts the name or follows a separator; the empty name has none |
| Account.ParentLeafJoin | beancount/core/account.py:64-89 | for a name of two or more components, joining parent and leaf gives back the name |
| Account.SansRoot | beancount/core/account.py:92-104 | `sans_root` drops exactly the first component; root, separator and the result rebuild the name; the empty name has none |
| Account.Root | beancount/core/account.py:107-116 | `root(n, a)` is the first `min(n, k)` components of a `k`-component name, `a` itself when `n >= k`, with Python slice semantics for `n <= 0` |
| Account.CommonPrefixOfAll | beancount/core/account.py:133-147 | the longest common prefix of component lists: a prefix of every list, and no longer prefix is common to all of them |
| Account.CommonPrefix | beancount/core/account.py:133-147 | `commonprefix` joins the longest component-wise common prefix; its components prefix every input's; it is the empty name when two roots differ |
| Account.Parents | beancount/core/account.py:182-192 | `parents` yields the name and then each successive parent, never the empty name; a `k`-component name yields `k` names, each one component shorter than the one before |
| Account.SearchesComponentIff | beancount/core/account.py:119-130 | for a literal separator-free component, the search for `(^|:)c(:|$)` succeeds exactly when it is one of the name's components, or one of them once a final newline is dropped |
| Account.HasComponent | beancount/core/account.py:119-130 | `has_component` with a literal separator-free component holds exactly when it is one of the name's components, or one of them once a final newline is dropped |
| Account.MatchesIffValidComponents | beancount/core/account.py:21 | the account regular expression accepts exactly the names of two or more components whose root is a capital and at least one name character, and whose later components are a capital and any name characters |
| Account.IsValid | beancount/core/account.py:29-39 | `is_valid` holds exactly when the components of the name are valid, the name taken with at most one final newline removed |
| Getters.AccountsOfIff | src/python/beancount/core/getters.py:33-76 | the per-kind dispatch yields the posting accounts of a transaction, both accounts of a pad, the account of the one-account kinds, and nothing for events and prices |
| Getters.GetAccounts | src/python/beancount/core/getters.py:17-31 | `get_accounts` is exactly the set of accounts some entry references |
| Getters.GetAccountComponents | src/python/beancount/core/getters.py:90-103 | a string is in the result exactly when it is a component of some referenced account |
| Getters.GetAllTags | src/python/beancount/core/getters.py:106-118 | a tag is in the result exactly when some transaction carries it |
| Getters.GetAllPayees | src/python/beancount/core/getters.py:121-133 | a payee is in the result exactly when some transaction has it; absent payees are left out |
| Getters.CountIsCardinality | src/python/beancount/core/getters.py:147-151 | over distinct names, the level counter is the number of distinct names having that level-`n` component |
| Getters.GetLevelnParentAccounts | src/python/beancount/core/getters.py:136-155 | an IndexError exactly when the level is negative and some name has fewer than `-n` components, naming such a name; otherwise the result is strictly sorted, hence duplicate-free, and a component is in it exactly when more than `nrepeats` distinct names, and at least one, have it at level `n`, a negative level counting from the end |
| Getters.LevelMinusOneIsLeaf | src/python/beancount/core/getters.py:149-151 | at level -1 no non-empty name raises, and the component counted is the name's leaf |
| Getters.GetMinMaxDates | src/python/beancount/core/getters.py:158-169 | `(None, None)` exactly on empty input, otherwise the first and last entries' dates, which bound every date of a chronological list |
| Getters.ListYears | src/python/beancount/core/getters.py:180-188 | the loop over the entries' years succeeds exactly when each year's entries form one run; it then lists every year once, in order of first appearance |
| Getters.GetActiveYears | src/python/beancount/core/getters.py:172-188 | succeeds exactly when every year's entries are contiguous; then yields every year of the entries, once each, in order of first appearance |
| Getters.OpenCloseFoldSpec | src/python/beancount/core/getters.py:200-203 | the loop keeps, per account, the last Open and the last Close seen, and leaves the slots without one as they were |
| Getters.GetAccountOpenClose | src/python/beancount/core/getters.py:191-204 | exactly the accounts with an Open or a Close are keys, each mapped to its last Open and last Close in input order, absent where there is none |
| Prices.Record | src/python/beancount/core/prices_test.py:194-212 | recording a rate on a date keeps the series ascending, replaces the rate of that date and changes no other date |
| Prices.InvertSpec | src/python/beancount/core/prices_test.py:73-89 | the inverse series ascends and records, on each date, the reciprocal of the nonzero rate recorded there, and nothing else |
| Prices.InvertInvolutive | src/python/beancount/core/prices_test.py:73-89 | inverting twice gives back a series without zero rates |
| Prices.FoldSpec | src/python/beancount/core/prices_test.py:56-89 | the fold gives a series to the orientation first recorded between two currencies; on each date it holds the rate of the last directive of that date, reverse-orientation rates inverted |
| Prices.BuildPriceMap | src/python/beancount/core/prices_test.py:56-89 | in a built map every pair's reversed pair is present, no currency is priced in itself, every series ascends, and of a pair and its reversed pair one holds the inverse series of the other |
| Prices.BuildPriceMapSpec | src/python/beancount/core/prices_test.py:56-89 | a pair is a key exactly when a price between its currencies was recorded; its inverse is then a key; every series ascends; the first orientation holds the last rate of each date; the other holds its inverse |
| Prices.SameDateRates | src/python/beancount/core/prices_test.py:194-214 | for any three USD/CAD rates on one date, the map has exactly the two keys, the last rate read as the only observation, and its reciprocal as the only inverse observation |
| Prices.SameDateScenario | src/python/beancount/core/prices_test.py:194-214 | three USD/CAD prices on one date give the two keys, the last rate read (1.11) as the only observation, and one inverse observation |
| Prices.InverseSameLength | src/python/beancount/core/prices_test.py:89 | when no recorded rate is zero, a pair and its inverse have series of equal length |
| Prices.NormalizeBaseQuote | src/python/beancount/core/prices_test.py:47-54 | an explicit pair is kept; a string is accepted exactly when it has one `/`, and then the two separator-free parts joined by `/` give it back; anything else is an error naming the string |
| Prices.NormalizeRoundTrip | src/python/beancount/core/prices_test.py:47-51 | `BASE/QUOTE` normalises to `(BASE, QUOTE)` |
| Prices.LookupPriceAndInverse | src/python/beancount/core/prices_test.py:91-103 | the stored series, else the inverse of the reversed pair's; an error exactly when neither orientation is stored, naming the pair as requested |
| Prices.LookupInverseOfBuilt | src/python/beancount/core/prices_test.py:73-89 | in a built map, looking up the reversed pair gives the inverse of the series recorded first |
| Prices.GetAllPrices | src/python/beancount/core/prices_test.py:105-130 | the whole series ascending by date; an error exactly for a malformed pair or a pair stored in neither orientation, naming the requested pair |
| Prices.GetLatestPrice | src/python/beancount/core/prices_test.py:132-146 | an error only for a malformed pair; `(None, None)` for an unknown pair or empty series; otherwise an observation of the series no earlier than any other |
| Prices.PriceAtIsStep | src/python/beancount/core/prices_test.py:148-183 | the price in force is absent before the first observation, and otherwise the observation with the greatest date on or before the query date |
| Prices.BisectRight | src/python/beancount/core/prices_test.py:148-183 | the binary search returns the number of observations dated on or before the query date |
| Prices.PriceAtBisect | src/python/beancount/core/prices_test.py:148-183 | the binary search's answer is the linear reference's |
| Prices.GetPrice | src/python/beancount/core/prices_test.py:148-192 | with no date the latest price; with a date the observation in force then; `(None, None)` for an unknown pair; an error exactly for a malformed pair |
| Prices.PriceAtInvert | src/python/beancount/core/prices_test.py:148-192 | for a series without zero rates, the step lookup of the inverse series on any date finds an observation exactly when the series' lookup does, on the same date and with the reciprocal rate |
| Prices.BuiltPriceAtInverse | src/python/beancount/core/prices_test.py:56-89 | in a built map without zero rates, the step lookups of a pair and of its reversed pair agree on every date on presence and date, with reciprocal rates |
| Prices.GetPriceInverse | src/python/beancount/core/prices_test.py:148-192 | for a pair of a built map without zero rates, what `get_price` answers on a date for the pair and for the reversed pair has the same date, both or neither have a price, and the prices are reciprocal |
| Prices.GetLastPriceEntries | src/python/beancount/core/prices_test.py:18-42 | among the entries before the date, exactly one price entry per recorded pair, each the last one of its pair, all dated strictly before the date |
| Realization.RealizeFrom | src/python/beancount/core/tests/summarize_test.py:160-177 | folding entries into balances adds to every key what the transactions post to it, and adds exactly the keys posted to |
| Realization.Realize | src/python/beancount/core/tests/summarize_test.py:160-177 | `realize` holds, for every (account, currency) some transaction posts to, the sum of the units posted there, and no other key |
| Realization.CompareRealizations | src/python/beancount/core/tests/summarize_test.py:82 | two realizations compare equal exactly when every key has the same balance in both, absent keys counting as zero |
| Realization.SameBalancesCompare | src/python/beancount/core/tests/summarize_test.py:82 | ledgers that post the same to every key realize to realizations that compare equal |
| Realization.RealizedTotal | src/python/beancount/core/tests/summarize_test.py:67-117 | summed over its keys, a realization holds, on the selected accounts and per currency, exactly what the transactions posted there |
| Realization.AllBalancedTotal | src/python/beancount/core/tests/summarize_test.py:67-117 | a ledger whose transactions balance per currency moves nothing in total over all accounts |
| Summarize.SortByDate | src/python/beancount/core/tests/summarize_test.py:189-207 | the stable sort by date gives entries in date order holding the same entries as often |
| Summarize.SortChronological | src/python/beancount/core/tests/summarize_test.py:189-207 | sorting entries already in date order leaves them as they are |
| Summarize.OpenAtDate | src/python/beancount/core/tests/summarize_test.py:189-207 | `open_at_date` gives exactly the Open directives dated before the date, each as often as in the input, in ascending date order whatever the input order |
| Summarize.PrefixAt | src/python/beancount/core/tests/summarize_test.py:179-186 | the history before the date ends at the first entry not dated before it |
| Summarize.Transfer | src/python/beancount/core/tests/summarize_test.py:179-186 | `transfer` keeps the entries before the date and those from it on, and puts only transactions dated at the date between them |
| Summarize.TransferEntries | src/python/beancount/core/tests/summarize_test.py:179-186 | at most one transaction per listed key, each dated at the date with two legs: the first takes a selected account's nonzero balance out, the second brings the same amount of that currency into the target |
| Summarize.PrefixOfTransfer | src/python/beancount/core/tests/summarize_test.py:179-186 | a transfer leaves the history before the date as it was |
| Summarize.TransferEntriesBalanced | src/python/beancount/core/tests/summarize_test.py:179-186 | each synthesised transfer transaction balances in its currency |
| Summarize.TransferBalance | src/python/beancount/core/tests/summarize_test.py:179-186 | after a transfer the selected accounts lose what they held before the date, the target gains that total per currency, and no other balance changes |
| Summarize.TransferKeepsTotals | src/python/beancount/core/tests/summarize_test.py:179-186 | a transfer keeps every currency's total over all accounts |
| Summarize.Summarize | src/python/beancount/core/tests/summarize_test.py:67-117 | `summarize` keeps the entries from the date on, preceded by the summarizing transaction, preceded only by non-transactions dated before the date |
| Summarize.SummarizeParts | src/python/beancount/core/tests/summarize_test.py:67-117 | a summarized ledger is the carried Opens and prices, the summarizing transaction, then the entries from the date on |
| Summarize.SummarizeBalance | src/python/beancount/core/tests/summarize_test.py:67-117 | after summarizing every balance is unchanged, except that the opening account is off by what the history before the date moved over all accounts in that currency |
| Summarize.SummarizePreserves | src/python/beancount/core/tests/summarize_test.py:67-117 | summarizing a ledger whose transactions balance keeps `compare_realizations` true between before and after |
| Summarize.SummaryBalanced | src/python/beancount/core/tests/summarize_test.py:67-117 | the summarizing transaction balances in every currency |
| Summarize.SummaryEntryPostsToOpening | src/python/beancount/core/tests/summarize_test.py:83 | when the history leaves some account with a nonzero balance, the summarizing transaction posts to the opening account |
| Summarize.SummarizeChronological | src/python/beancount/core/tests/summarize_test.py:67-117 | summarizing entries in date order gives entries in date order |
| SummarizeExamples.RealizeSalaries | src/python/beancount/core/tests/summarize_test.py:160-177 | the two salaries realize to 2000 USD on Assets:Checking and -2000 USD on Income:Job |
| SummarizeExamples.TransferSalaries | src/python/beancount/core/tests/summarize_test.py:179-186 | after the transfer at 2012-06-01 Equity:Retained-Earnings holds -2000 USD, Assets:Checking still 2000 USD, and every other account and currency, Income:Job included, nothing |
| SummarizeExamples.SummarizeSalaries | src/python/beancount/core/tests/summarize_test.py:67-82 | summarizing the salaries at 2012-01-01 keeps `compare_realizations` true |
| SummarizeExamples.SummarizeSalariesOpening | src/python/beancount/core/tests/summarize_test.py:83 | the summarizing transaction posts to the opening-balances account |
| SummarizeExamples.DiningTransferred | src/python/beancount/core/tests/summarize_test.py:119-145 | after the transfer at 2012-01-01 the history before it is untouched and the year's income statement, -920 USD, sits in retained earnings |
| SummarizeExamples.TransferThenSummarize | src/python/beancount/core/tests/summarize_test.py:119-155 | transfer then summarize at 2012-01-01 gives Checking 1920, Retained-Earnings -920, Income:Job -1000, and zero on the restaurant and the opening account |
| ImplicitPrices.Implied | src/python/beancount/plugins/implicit_prices.py:59-78 | a posting implies a price exactly when it has a price, or a cost on a lot it does not reduce; the price is dated like the transaction, for the posting's currency, at the posting price if any, else the cost |
| ImplicitPrices.PriceIgnoresBooking | src/python/beancount/plugins/implicit_prices.py:59-63 | a posting with a price implies the same price whatever its booking |
| ImplicitPrices.DedupSpec | src/python/beancount/plugins/implicit_prices.py:80-109 | de-duplication keeps prices of the input whose keys were not yet seen, with pairwise different keys, covering every unseen key |
| ImplicitPrices.PostingsPass | src/python/beancount/plugins/implicit_prices.py:46-109 | one transaction's pass emits at most one price per posting, each dated like the transaction, with a key not seen before and pairwise different keys, and adds exactly their keys to the seen set |
| ImplicitPrices.PostingsPassIsDedup | src/python/beancount/plugins/implicit_prices.py:46-109 | the single pass over a transaction's postings emits the de-duplication of the prices they imply and records their keys |
| ImplicitPrices.AddedIsDedup | src/python/beancount/plugins/implicit_prices.py:40-109 | the synthesised prices are the first occurrence of every key among the prices the whole ledger implies, in order |
| ImplicitPrices.ImpliedPricesOnce | src/python/beancount/plugins/implicit_prices.py:80-109 | every implied price is synthesised, and the synthesised prices have pairwise different keys |
| ImplicitPrices.AddImplicitPrices | src/python/beancount/plugins/implicit_prices.py:19-111 | the output is at least as long as the input and the error list is empty |
| ImplicitPrices.BlocksShape | src/python/beancount/plugins/implicit_prices.py:44-109 | non-transactions get no prices after them; every added entry is a Price dated like the entry it follows |
| ImplicitPrices.PositionAt | src/python/beancount/plugins/implicit_prices.py:40-109 | each entry sits at its position, directly followed by its added prices, and the next entry comes right after them |
| ImplicitPrices.EntriesKept | src/python/beancount/plugins/implicit_prices.py:40-42 | every input entry is in the output, in the same relative order |
| V1ToV2.Unquote | src/python/beancount/scripts/v1tov2.py:9-10 | `unquote` keeps the length, turns every `"` into `'` and keeps every other character |
| V1ToV2.UnquoteStable | src/python/beancount/scripts/v1tov2.py:9-10 | a line without double quotes is unchanged, and unquoting is idempotent |
| V1ToV2.ConvertDefcommDirective | src/python/beancount/scripts/v1tov2.py:39-44 | a line changes exactly when it starts `@defcomm`, then by a leading `;`, and no result starts `@defcomm` |
| V1ToV2.DefcommOnce | src/python/beancount/scripts/v1tov2.py:39-44 | a line changes exactly when it starts `@defcomm`, and converting twice is converting once |
| V1ToV2.AddOrgModeSection | src/python/beancount/scripts/v1tov2.py:92-97 | a line not starting `;;;;; ` is unchanged; one that does becomes a `* ` heading ending in a newline |
| V1ToV2.OrgModeHeading | src/python/beancount/scripts/v1tov2.py:92-97 | `;;;;; X` becomes `* X` |
| V1ToV2.ValueShow | src/python/beancount/scripts/v1tov2.py:115-117 | reading back a zero-padded number gives the number when it fits the width |
| V1ToV2.ParseFormat | src/python/beancount/scripts/v1tov2.py:113-117 | a formatted date matches the date pattern and parses back to the same date |
| V1ToV2.RemoveDatepair | src/python/beancount/scripts/v1tov2.py:99-104 | a line without a date pair is unchanged; one with it keeps its first date at the front and ends in a newline |
| V1ToV2.DatepairMoved | src/python/beancount/scripts/v1tov2.py:99-104 | `D1=D2 rest` becomes `D1 rest {D2}` |
| V1ToV2.ConvertTags | src/python/beancount/scripts/v1tov2.py:106-110 | a line not starting with `begintag` or `endtag` is unchanged |
| V1ToV2.TagMarked | src/python/beancount/scripts/v1tov2.py:106-110 | `begintag NAME` and `endtag NAME` become `begintag #NAME` and `endtag #NAME` |
| V1ToV2.CheckToCheckAfter | src/python/beancount/scripts/v1tov2.py:112-119 | a line that is not a check is unchanged; an impossible date is an error naming it; a valid date overflows exactly when it is 9999-12-31 |
| V1ToV2.CheckMovesOneDay | src/python/beancount/scripts/v1tov2.py:112-118 | a check dated `d` moves to the next calendar day, exactly one day ordinal later, with the text after `check ` kept |
| V1ToV2.CheckOverflow | src/python/beancount/scripts/v1tov2.py:115-116 | a check dated 9999-12-31 raises |
| V1ToV2.TagsBeginToPush | src/python/beancount/scripts/v1tov2.py:121-127 | a line not starting with `begintag` or `endtag` is unchanged |
| V1ToV2.PushTagLeading | src/python/beancount/scripts/v1tov2.py:121-127 | on a `begintag` line the directive becomes `pushtag` and every `begin`/`end` after it becomes `push` |
| V1ToV2.PopTagLeading | src/python/beancount/scripts/v1tov2.py:121-127 | on an `endtag` line the directive becomes `poptag` and every `begin`/`end` after it becomes `pop` |
| V1ToV2.PushTagPlain | src/python/beancount/scripts/v1tov2.py:121-127 | when the rest holds no `begin` or `end`, only the directive is renamed |
| V1ToV2.PushTagMangles | src/python/beancount/scripts/v1tov2.py:121-127 | as written, the tag name `end` of `begintag end` is rewritten to `push` |
| V1ToV2.PushPopDirective | src/python/beancount/scripts/v1tov2.py:121-127 | the corrected rewrite renames only the leading `begintag`/`endtag` to `pushtag`/`poptag` and keeps the rest of the line |
| V1ToV2.PushPopKeepsNames | src/python/beancount/scripts/v1tov2.py:121-127 | the corrected rewrite keeps every tag name, and agrees with the rewrite as written when the names hold no `begin` or `end` |

## Left out

- The implementation of the price map (`prices.py`) is not part of this model. Its behaviour follows the tests. Prices recorded between two currencies fold, in input order, into the series of the orientation seen first. Reverse-orientation rates are inverted. On the same date the last rate read wins.
- Prices.BuildPriceMap: a zero rate has no reciprocal, so it is dropped from the inverse series; the lengths of a pair and its inverse are proved equal only when no recorded rate is zero. A price of a currency in itself is ignored.
- Prices.GetLastPriceEntries: returns the per-pair entries in input order; the order of the source's result is not pinned by its test.
- Realization: reduced to per-(account, currency) local balances. Cost lots, the `RealAccount` tree, balance-check diagnostics and `pad` are not part of this model. The combined test runs `pad` first; its ledger has no Pad directive. The amount the parser interpolates on the second leg of "Eating out" is written out as -80 USD.
- Summarize.SummarizePreserves: requires every transaction to balance in each currency. The price conversion of `test_with_conversions` balances only at its price and is not modelled.
- Summarize.OpenAtDate: keeps Opens dated strictly before the date, matching the strict history prefix that `summarize` replaces. A non-strict cutoff would carry an Open dated at the date twice.
- Summarize.Summarize: the summarizing postings cover every (account, currency) the history posted to, not only the accounts open at the date. A ledger whose postings all go to open accounts sees no difference.
- Summarize.Transfer: one transaction per (account, currency) with a nonzero balance, each with two legs. The source's grouping of legs into transactions is not pinned by its test.
- `is_income_statement_account` is not part of this model. SummarizeExamples.IncomeStatement stands in for it: accounts under `Income` or `Expenses`.
- ImplicitPrices.AddImplicitPrices: inventory booking (`inventory.add_position`) is not part of this model. It is a parameter: a function of the postings already held in the account and the new posting. Entry metadata is dropped, so two prices with the same key are equal and "first one kept" cannot be told apart from "last one kept".
- Account.HasComponent: modelled for literal components only; the source does not escape regular-expression characters in the component.
- Account: `walk` reads the filesystem and `parent_matcher` compiles a regular expression; both are left out. `TYPE` is a constant with no behaviour.
- V1ToV2: `\d` and `\s` are read over ASCII only.
- V1ToV2.FormatDate: zero-pads the year to four digits; years below 1000 are formatted by the platform's `strftime` in the source.
- V1ToV2.TagMarked: requires a non-empty tag name that does not start with whitespace. For `begintag ` followed directly by the newline, the greedy `\s+` consumes the newline; that case is not stated.
- V1ToV2.CheckMovesOneDay: stated for lines ending in one newline; a check line without a final newline is covered only by V1ToV2.CheckToCheckAfter.
- V1ToV2: `add_strings`, `convert_certain_commodities`, `convert_var_directive`, the first `convert_tags` (redefined at line 106), `unindent_comments`, `convert_quoted_currencies`, `convert_location`, `convert_directives`, `swap_directives_into_events`, `defaccount_to_open`, `uncomment_tentative` and `main` (file I/O) are not part of this model.
- Getters.GetAccounts: returns a set; the source returns a dict mapping each account to itself.
- Getters.GetActiveYears: a generator in the source; the model returns the whole list, or the error of the failed assertion.

## Findings

| source | as written | input that shows it | evidently intended | confidence | as-written member | corrected member |
|---|---|---|---|---|---|---|
| src/python/beancount/scripts/v1tov2.py:121-127 | `re.sub('(begin\|end)', newtag, line)` rewrites every `begin` and `end` in the line, tag names included | `begintag end` becomes `pushtag push` | rename only the leading `begintag`/`endtag` to `pushtag`/`poptag` and keep the tag name | medium, not executed | V1ToV2.PushTagMangles | V1ToV2.PushPopKeepsNames |
