# Mercury importer for beancount-import, modelled in Dafny

This project models `MercurySource`, the beancount-import source for Mercury bank accounts
(`beancount_import/source/mercury.py`). The source does three things:

- It pages through one account's transactions on the Mercury API. Requests go out at
  offsets 0, 500, 1000, … with `limit=500`. The first page shorter than 500 ends the listing.
  An HTTP error status aborts the fetch.
- It converts each raw record into a balanced two-posting beancount transaction. The first
  posting is to the configured assets account and the second to `Expenses:FIXME`. The
  transaction carries `source`, `mercury_id` and `date` metadata.
- `prepare` emits one pending `ImportResult` per record into the framework's results sink, then
  registers the assets account.

Modules:

- `Wrappers` holds `Option` and `Result`.
- `Beancount` holds the ledger types the source builds, and the double-entry `Balanced`
  predicate.
- `ImportSource` holds `ImportResult`, `AssociatedData`, the `FixmeAccount` constant, and the
  `SourceResults` sink. The sink is a class with a `pending` sequence and an `accounts` set.
- `MercuryHttp` holds the raw record, the HTTP response, `raise_for_status`, and the client
  class `MercuryApi`. The server is a function from offset to response. The client logs every
  offset it is asked for.
- `Mercury` holds the pagination loop, the converter and the driver, each with the functions
  that specify it and the lemmas about them.

Modelling decisions:

- The loop of the source ends only if the server eventually sends a last page: one with an
  error status or fewer than 500 records. The model makes that an explicit precondition. A
  ghost `horizon` names a page that is last, and the loop's termination measure counts down
  to it.
- `SliceServer(data)` is a concrete server. It holds a list and answers each offset with the
  records from there on, at most 500 of them. The completeness lemmas use it.
- `datetime.strptime` is an opaque parameter `parseDate: string -> Option<Date>`. A date it
  rejects is the `ValueError` of the source, modelled as `InvalidDate`.
- The list comprehension converts every record before anything is emitted. So a rejected date
  ends `prepare` with the first failing record's error, and the results stay untouched.
- `D()` builds an exact decimal from the amount string, modelled as `real`. The model's
  negation is exact. Python's `Decimal` negation rounds to the context precision (see
  `Mercury.ConvertedIsBalanced` under "## Left out").
- `merchant` is `Option<string>`, where JSON null is `None`. Python truthiness means present
  and non-empty.
- `MercurySource` never changes its fields after construction, so it is a datatype of its
  configuration, not a class.
- `FIXME_ACCOUNT` is taken to be `"Expenses:FIXME"`, the value in beancount_import/matching.py.
  `FLAG_OKAY` is `'*'`. Neither file is part of this model.

Scope of the source:

- The source binds one fixed assets account.
- It does no deduplication and no filtering by transaction status.
- It takes the payee from `merchant`, with the fallback `'Unknown'`.
- It parses the raw `date` field as `%Y-%m-%d`.

## Model

| member | source | states |
|---|---|---|
| `Mercury.FetchMercuryTransactions` | beancount_import/source/mercury.py:37-55 | the loop returns the in-order concatenation of the fetched pages up to the first page shorter than 500, or the error of an error-status page, and nothing else; the client's request log grows by exactly the offsets the loop requested |
| `Mercury.FirstLastPage` | beancount_import/source/mercury.py:46-52 | the page the loop stops at is a last page (error status or fewer than 500 records) and no earlier page is |
| `Mercury.RequestOffsets` | beancount_import/source/mercury.py:43-53 | the i-th request uses offset 500·i, with no gaps or repeats, and there is one request per page up to and including the stopping page |
| `Mercury.FetchStopsAtFirstShortPage` | beancount_import/source/mercury.py:46-55 | every page before the stopping page succeeded with at least 500 records; the result is the concatenation of all pages through the stopping page, or the stopping page's HTTP error with its offset |
| `Mercury.FetchFailsOnlyOnErrorStatus` | beancount_import/source/mercury.py:47-48 | the fetch fails if and only if the stopping page has a 4xx/5xx status |
| `Mercury.SliceServerEnds` | beancount_import/source/mercury.py:51-52 | against a server holding a list of n records, some page at or before n / 500 is short, so the loop terminates |
| `Mercury.FetchIsComplete` | beancount_import/source/mercury.py:42-55 | against a server holding a list, the loop returns exactly that list, nothing dropped and nothing repeated |
| `Mercury.ThousandRecordsTakeThreeRequests` | beancount_import/source/mercury.py:46-55 | 1000 records are fetched completely with requests at offsets 0, 500 and 1000 |
| `Mercury.PayeeOf` | beancount_import/source/mercury.py:62 | the payee is the merchant when it is truthy (present and non-empty), otherwise "Unknown"; it is never empty |
| `Mercury.CreateBeancountTransaction` | beancount_import/source/mercury.py:57-58 | the conversion succeeds exactly when the record's date parses; otherwise it fails with an invalid-date error naming that record's id and raw date |
| `Mercury.ConvertedIsBalanced` | beancount_import/source/mercury.py:59-73 | a converted transaction is balanced. It has exactly two postings: the assets account with the record's amount and currency, then `Expenses:FIXME` with the exact negation in the same currency. Neither posting has cost, price, flag or meta |
| `Mercury.ConvertedProvenance` | beancount_import/source/mercury.py:61-75 | a converted transaction's metadata has exactly the keys `source`, `mercury_id` and `date`, and the record's id, raw date, amount and description read back from it unchanged. Its date is the parsed date, its flag is `*`, its payee is the fallback payee, its narration is the description, and it has no tags or links |
| `Mercury.DistinctIdsStayDistinct` | beancount_import/source/mercury.py:64-68 | records with different ids give transactions with different `mercury_id` metadata |
| `Mercury.FirstRejected` | beancount_import/source/mercury.py:79 | the index of the first record whose date is rejected: every earlier date parses, and the record at the index, if any, is rejected |
| `Mercury.ConvertAll` | beancount_import/source/mercury.py:79 | every record is converted in order into a list of the same length; it fails if and only if some date is rejected, and then with the error of the first such record |
| `Mercury.PendingEntries` | beancount_import/source/mercury.py:81-82 | one pending import per entry, in order, each holding only that entry, dated by it, with no info |
| `Mercury.AddPendingEntries` | beancount_import/source/mercury.py:81-82 | the sink's pending list grows by exactly the pending imports of the entries, in order; its accounts are unchanged |
| `Mercury.ImportOnePerRecord` | beancount_import/source/mercury.py:77-82 | the driver succeeds if and only if the fetch succeeds and every fetched date parses; it then emits exactly one import per fetched record, in fetch order, holding that record's converted transaction and dated by it |
| `Mercury.ImportIsComplete` | beancount_import/source/mercury.py:77-82 | against a server holding a list, with every date accepted, the driver emits one import per record, carrying that record's Mercury id, in the server's order |
| `Mercury.Prepare` | beancount_import/source/mercury.py:77-84 | on success the pending list is extended by exactly the imports of the fetched records and the assets account is added to the account set, even when no record was fetched; on an HTTP or date error nothing is added; the requests made are exactly the loop's offsets |
| `Mercury.IsPostingCleared` | beancount_import/source/mercury.py:86-87 | no posting is ever cleared |
| `Mercury.GetExampleKeyValuePairs` | beancount_import/source/mercury.py:89-90 | always the empty map |
| `Mercury.GetAssociatedData` | beancount_import/source/mercury.py:92-93 | always `None` |
| `MercuryHttp.MercuryApi.Get` | beancount_import/source/mercury.py:47 | a GET at an offset returns the server's response for that offset and appends the offset to the request log |
| `ImportSource.SourceResults.AddPendingEntry` | beancount_import/source/mercury.py:82 | the entry is appended to the pending list; the accounts are unchanged |
| `ImportSource.SourceResults.AddAccount` | beancount_import/source/mercury.py:84 | the account is added to the account set; the pending list is unchanged |

## Left out

- HTTP transport: the URL template, the bearer-token headers and `requests.get` are replaced by
  the abstract server `respond(offset)` (mercury.py:19, 38-47).
- JSON decoding, a response without a `transactions` key, and a record without one of the keys
  the converter reads: these raise in the source and are not modelled. Records and responses
  are already-decoded values.
- `raise_for_status` is modelled by status code only (400 to 599 raise). Redirects and
  connection errors are not modelled.
- The process-wide IPv4 monkey-patch (mercury.py:21-23) is global network configuration.
- `datetime.strptime` is an opaque parameter, because the library's parsing rules are not
  part of this model. `D()` parsing is left out: amounts are already exact numbers.
- The `journal` argument of `prepare` is unused by the source and left out. The `Source` base
  class, `log_status`, the `name` property and `load` (mercury.py:26-35, 95-96) are
  framework wiring with nothing to verify.
- Beancount's `Cost` is reduced to a number and a currency, and metadata values to strings.
  The source sets no cost and stores only strings.
- `Mercury.ConvertedIsBalanced`: proves the balance with exact negation. In the source,
  `-amount` on a `Decimal` rounds to the decimal context precision (28 significant digits by
  default). So an amount with more significant digits gets a FIXME leg that is not its exact
  negation, and that transaction does not sum to zero. Context rounding is not modelled.
- `Mercury.FetchMercuryTransactions`: proved only for servers that eventually send a last
  page. Against a server that never does, the source loops forever, and the model has no such
  run.
