/**
 * The Mercury bank importer: paginated retrieval of an account's transactions, conversion of
 * each record into a two-posting beancount transaction, and the `prepare` driver that emits
 * one pending import per record.
 */
module Mercury {
  import opened Wrappers
  import opened Beancount
  import opened ImportSource
  import opened MercuryHttp

  /** The `limit` of every request and the step between offsets. */
  const PageSize: nat := 500

  /** The configuration a source is constructed with; none of it changes afterwards. */
  datatype MercurySource = MercurySource(apiKey: string, accountId: string, assetsAccount: Account)

  /** The exceptions that end `prepare`: an HTTP error status, or a date `strptime` rejects. */
  datatype Error = FetchFailed(status: nat, offset: nat) | InvalidDate(id: string, date: string)

  // ---------------------------------------------------------------------------
  // Pagination

  /** A response after which the loop makes no further request. */
  predicate LastPage(resp: Response)
  {
    RaisesForStatus(resp.status) || |resp.transactions| < PageSize
  }

  /**
   * The server ends the listing no later than page `horizon`, and `k` is not past it.
   * Without such a page the loop of the source does not terminate.
   */
  predicate EndsBy(respond: nat -> Response, k: nat, horizon: nat)
  {
    k <= horizon && LastPage(respond(PageSize * horizon))
  }

  function Prepend(prefix: seq<RawTxn>, rest: Result<seq<RawTxn>, Error>): Result<seq<RawTxn>, Error>
  {
    match rest
    case Success(s) => Success(prefix + s)
    case Failure(e) => Failure(e)
  }

  lemma PrependNothing(rest: Result<seq<RawTxn>, Error>)
    ensures Prepend([], rest) == rest
  {
    if rest.Success? {
      assert [] + rest.value == rest.value;
    }
  }

  lemma PrependTwice(a: seq<RawTxn>, b: seq<RawTxn>, rest: Result<seq<RawTxn>, Error>)
    ensures Prepend(a, Prepend(b, rest)) == Prepend(a + b, rest)
  {
    if rest.Success? {
      assert a + (b + rest.value) == (a + b) + rest.value;
    }
  }

  /** What the loop returns when started at page `k`. */
  function FetchFrom(respond: nat -> Response, k: nat, horizon: nat): Result<seq<RawTxn>, Error>
    requires EndsBy(respond, k, horizon)
    decreases horizon - k
  {
    var resp := respond(PageSize * k);
    if RaisesForStatus(resp.status) then Failure(FetchFailed(resp.status, PageSize * k))
    else if |resp.transactions| < PageSize then Success(resp.transactions)
    else Prepend(resp.transactions, FetchFrom(respond, k + 1, horizon))
  }

  /** The offsets the loop requests when started at page `k`, in order. */
  function RequestsFrom(respond: nat -> Response, k: nat, horizon: nat): seq<nat>
    requires EndsBy(respond, k, horizon)
    decreases horizon - k
  {
    if LastPage(respond(PageSize * k)) then [PageSize * k]
    else [PageSize * k] + RequestsFrom(respond, k + 1, horizon)
  }

  /** The index of the first last page at or after page `k`. */
  function FirstLastPage(respond: nat -> Response, k: nat, horizon: nat): (n: nat)
    requires EndsBy(respond, k, horizon)
    ensures k <= n <= horizon
    ensures LastPage(respond(PageSize * n))
    ensures forall j :: k <= j < n ==> !LastPage(respond(PageSize * j))
    decreases horizon - k
  {
    if LastPage(respond(PageSize * k)) then k else FirstLastPage(respond, k + 1, horizon)
  }

  /** The records of pages `k` up to but excluding `n`, concatenated in page order. */
  function PagesBetween(respond: nat -> Response, k: nat, n: nat): seq<RawTxn>
    decreases n - k
  {
    if n <= k then [] else respond(PageSize * k).transactions + PagesBetween(respond, k + 1, n)
  }

  /**
   * `fetch_mercury_transactions`: request offsets 0, 500, 1000, ... and collect every page
   * until one is shorter than a page; an error status aborts with no list.
   */
  method FetchMercuryTransactions(api: MercuryApi, ghost horizon: nat) returns (r: Result<seq<RawTxn>, Error>)
    requires EndsBy(api.respond, 0, horizon)
    modifies api
    ensures r == FetchFrom(api.respond, 0, horizon)
    ensures api.requested == old(api.requested) + RequestsFrom(api.respond, 0, horizon)
  {
    var transactions: seq<RawTxn> := [];
    var offset: nat := 0;
    ghost var k: nat := 0;
    PrependNothing(FetchFrom(api.respond, 0, horizon));
    while true
      invariant k <= horizon && offset == PageSize * k
      invariant FetchFrom(api.respond, 0, horizon) == Prepend(transactions, FetchFrom(api.respond, k, horizon))
      invariant old(api.requested) + RequestsFrom(api.respond, 0, horizon)
                == api.requested + RequestsFrom(api.respond, k, horizon)
      decreases horizon - k
    {
      var resp := api.Get(offset);
      if RaisesForStatus(resp.status) {
        return Failure(FetchFailed(resp.status, offset));
      }
      ghost var before := transactions;
      transactions := transactions + resp.transactions;
      if |resp.transactions| < PageSize {
        break;
      }
      PrependTwice(before, resp.transactions, FetchFrom(api.respond, k + 1, horizon));
      offset := offset + PageSize;
      k := k + 1;
    }
    return Success(transactions);
  }

  /** The k-th request of the loop uses offset 500·k, and the loop makes one request per page up to the first last page. */
  lemma {:induction false} RequestOffsets(respond: nat -> Response, k: nat, horizon: nat)
    requires EndsBy(respond, k, horizon)
    ensures |RequestsFrom(respond, k, horizon)| == FirstLastPage(respond, k, horizon) - k + 1
    ensures forall i :: 0 <= i < |RequestsFrom(respond, k, horizon)| ==>
              RequestsFrom(respond, k, horizon)[i] == PageSize * (k + i)
    decreases horizon - k
  {
    if !LastPage(respond(PageSize * k)) {
      RequestOffsets(respond, k + 1, horizon);
    }
  }

  /**
   * The loop stops at the first last page: every page before it was a success with at least
   * 500 records, and the loop returns all of them and the last page's records in order, or the
   * last page's error status if it had one.
   */
  lemma {:induction false} FetchStopsAtFirstShortPage(respond: nat -> Response, k: nat, horizon: nat)
    requires EndsBy(respond, k, horizon)
    ensures var n := FirstLastPage(respond, k, horizon);
            var last := respond(PageSize * n);
            && (forall j :: k <= j < n ==>
                  !RaisesForStatus(respond(PageSize * j).status) && |respond(PageSize * j).transactions| >= PageSize)
            && (RaisesForStatus(last.status) ==>
                  FetchFrom(respond, k, horizon) == Failure(FetchFailed(last.status, PageSize * n)))
            && (!RaisesForStatus(last.status) ==>
                  FetchFrom(respond, k, horizon) == Success(PagesBetween(respond, k, n + 1)))
    decreases horizon - k
  {
    var resp := respond(PageSize * k);
    if LastPage(resp) {
      assert FirstLastPage(respond, k, horizon) == k;
      assert PagesBetween(respond, k, k + 1) == resp.transactions + PagesBetween(respond, k + 1, k + 1);
      assert resp.transactions + [] == resp.transactions;
    } else {
      FetchStopsAtFirstShortPage(respond, k + 1, horizon);
    }
  }

  /** A fetch fails exactly when some requested page has an error status. */
  lemma {:induction false} FetchFailsOnlyOnErrorStatus(respond: nat -> Response, k: nat, horizon: nat)
    requires EndsBy(respond, k, horizon)
    ensures FetchFrom(respond, k, horizon).Failure? <==>
              RaisesForStatus(respond(PageSize * FirstLastPage(respond, k, horizon)).status)
    decreases horizon - k
  {
    if !LastPage(respond(PageSize * k)) {
      FetchFailsOnlyOnErrorStatus(respond, k + 1, horizon);
    }
  }

  function Min(a: nat, b: nat): nat
  {
    if a <= b then a else b
  }

  /** A server holding `data` that answers offset `o` with the records from `o` on, at most one page. */
  function SliceServer(data: seq<RawTxn>): nat -> Response
  {
    (o: nat) => Response(200, data[Min(o, |data|)..Min(o + PageSize, |data|)])
  }

  /** Against a server holding `data`, the loop ends by page |data| / 500. */
  lemma SliceServerEnds(data: seq<RawTxn>)
    ensures EndsBy(SliceServer(data), 0, |data| / PageSize)
  {
    var h := |data| / PageSize;
    assert PageSize * h <= |data| < PageSize * h + PageSize;
  }

  /** Completeness: against a server holding `data`, the loop returns exactly `data`, nothing dropped or repeated. */
  lemma {:induction false} FetchIsComplete(data: seq<RawTxn>, k: nat)
    requires k <= |data| / PageSize
    ensures EndsBy(SliceServer(data), k, |data| / PageSize)
    ensures FetchFrom(SliceServer(data), k, |data| / PageSize) == Success(data[PageSize * k..])
    decreases |data| / PageSize - k
  {
    var h := |data| / PageSize;
    SliceServerEnds(data);
    var respond := SliceServer(data);
    assert PageSize * k <= PageSize * h <= |data|;
    var resp := respond(PageSize * k);
    if |resp.transactions| < PageSize {
      assert resp.transactions == data[PageSize * k..];
    } else {
      assert k < h;
      FetchIsComplete(data, k + 1);
      assert data[PageSize * k..] == resp.transactions + data[PageSize * (k + 1)..];
    }
  }

  /** A thousand records take three requests, at offsets 0, 500 and 1000; the last one returns nothing. */
  lemma ThousandRecordsTakeThreeRequests(data: seq<RawTxn>)
    requires |data| == 1000
    ensures EndsBy(SliceServer(data), 0, 2)
    ensures RequestsFrom(SliceServer(data), 0, 2) == [0, 500, 1000]
    ensures FetchFrom(SliceServer(data), 0, 2) == Success(data)
  {
    FetchIsComplete(data, 0);
  }

  // ---------------------------------------------------------------------------
  // Conversion

  /** Python truthiness of the `merchant` field: present and not the empty string. */
  predicate Truthy(merchant: Option<string>)
  {
    merchant.Some? && merchant.value != ""
  }

  /** The payee: the merchant when it is truthy, else "Unknown"; never empty. */
  function PayeeOf(merchant: Option<string>): (payee: string)
    ensures payee != ""
    ensures Truthy(merchant) ==> payee == merchant.value
    ensures !Truthy(merchant) ==> payee == "Unknown"
  {
    if Truthy(merchant) then merchant.value else "Unknown"
  }

  /** What a converted transaction keeps of the record it came from. */
  datatype Provenance = Provenance(id: string, date: string, amount: RawAmount, description: string)

  /**
   * Reads back the provenance of an imported transaction: its Mercury id and raw date from the
   * metadata, the amount from the first posting, the description from the narration.
   */
  function ProvenanceOf(tx: Transaction): Option<Provenance>
  {
    if "source" in tx.meta && tx.meta["source"] == "mercury"
       && "mercury_id" in tx.meta && "date" in tx.meta && |tx.postings| > 0
    then Some(Provenance(tx.meta["mercury_id"], tx.meta["date"],
                         RawAmount(tx.postings[0].units.number, tx.postings[0].units.currency),
                         tx.narration))
    else None
  }

  function ProvenanceOfRecord(txn: RawTxn): Provenance
  {
    Provenance(txn.id, txn.date, txn.amount, txn.description)
  }

  /** A posting with units only: no cost, price, flag or metadata. */
  predicate PlainPosting(p: Posting, account: Account, units: Amount)
  {
    p == Posting(account, units, None, None, None, None)
  }

  /**
   * `create_beancount_transaction`: one record becomes a transaction with an assets leg and a
   * FIXME leg; a date `parseDate` rejects is an error.
   */
  function CreateBeancountTransaction(src: MercurySource, parseDate: string -> Option<Date>, txn: RawTxn)
    : (r: Result<Transaction, Error>)
    ensures r.Success? <==> parseDate(txn.date).Some?
    ensures r.Failure? ==> r.error == InvalidDate(txn.id, txn.date)
  {
    match parseDate(txn.date)
    case None => Failure(InvalidDate(txn.id, txn.date))
    case Some(date) =>
      var amount := txn.amount.value;
      var currency := txn.amount.currency;
      var meta := map["source" := "mercury", "mercury_id" := txn.id, "date" := txn.date];
      var postings := [
        Posting(src.assetsAccount, Amount(amount, currency), None, None, None, None),
        Posting(FixmeAccount, Amount(-amount, currency), None, None, None, None)
      ];
      Success(Transaction(meta, date, FlagOkay, PayeeOf(txn.merchant), txn.description, {}, {}, postings))
  }

  /**
   * A converted transaction balances: exactly two postings, the assets account with the record's
   * amount and then the FIXME account with its exact negation in the same currency, neither with
   * cost, price, flag or metadata. Negation here is exact; the decimal context rounding that
   * Python applies to `-amount` is not modelled.
   */
  lemma ConvertedIsBalanced(src: MercurySource, parseDate: string -> Option<Date>, txn: RawTxn)
    requires CreateBeancountTransaction(src, parseDate, txn).Success?
    ensures var tx := CreateBeancountTransaction(src, parseDate, txn).value;
            && Balanced(tx)
            && |tx.postings| == 2
            && PlainPosting(tx.postings[0], src.assetsAccount, Amount(txn.amount.value, txn.amount.currency))
            && PlainPosting(tx.postings[1], FixmeAccount,
                            Amount(-tx.postings[0].units.number, tx.postings[0].units.currency))
  {
    var postings := CreateBeancountTransaction(src, parseDate, txn).value.postings;
    var currency := txn.amount.currency;
    assert postings[1..][1..] == [];
    assert UnitsIn(postings[1..], currency) == -txn.amount.value + UnitsIn(postings[1..][1..], currency);
  }

  /**
   * A converted transaction carries exactly the `source`, `mercury_id` and `date` metadata, from
   * which the record's id, raw date, amount and description read back unchanged; its date is the
   * parsed date, its flag `*`, its payee the fallback payee, and it has no tags or links.
   */
  lemma ConvertedProvenance(src: MercurySource, parseDate: string -> Option<Date>, txn: RawTxn)
    requires CreateBeancountTransaction(src, parseDate, txn).Success?
    ensures var tx := CreateBeancountTransaction(src, parseDate, txn).value;
            && tx.meta.Keys == {"source", "mercury_id", "date"}
            && ProvenanceOf(tx) == Some(ProvenanceOfRecord(txn))
            && tx.date == parseDate(txn.date).value
            && tx.flag == FlagOkay
            && tx.payee == PayeeOf(txn.merchant)
            && tx.narration == txn.description
            && tx.tags == {} && tx.links == {}
  {
  }

  /** Two records with different ids convert to transactions with different Mercury ids. */
  lemma DistinctIdsStayDistinct(src: MercurySource, parseDate: string -> Option<Date>, a: RawTxn, b: RawTxn)
    requires a.id != b.id
    requires CreateBeancountTransaction(src, parseDate, a).Success?
    requires CreateBeancountTransaction(src, parseDate, b).Success?
    ensures CreateBeancountTransaction(src, parseDate, a).value.meta["mercury_id"]
            != CreateBeancountTransaction(src, parseDate, b).value.meta["mercury_id"]
  {
  }

  /** The index of the first record whose date `parseDate` rejects, or |txns| when there is none. */
  function FirstRejected(parseDate: string -> Option<Date>, txns: seq<RawTxn>): (k: nat)
    ensures k <= |txns|
    ensures forall j :: 0 <= j < k ==> parseDate(txns[j].date).Some?
    ensures k < |txns| ==> parseDate(txns[k].date).None?
  {
    if txns == [] || parseDate(txns[0].date).None? then 0 else 1 + FirstRejected(parseDate, txns[1..])
  }

  /**
   * The list comprehension of `prepare`: every record converted, in order; the first record whose
   * date is rejected aborts the whole conversion with its error.
   */
  function ConvertAll(src: MercurySource, parseDate: string -> Option<Date>, txns: seq<RawTxn>)
    : (r: Result<seq<Transaction>, Error>)
    ensures r.Success? <==> forall i :: 0 <= i < |txns| ==> parseDate(txns[i].date).Some?
    ensures r.Success? ==> |r.value| == |txns|
    ensures r.Success? ==> forall i :: 0 <= i < |txns| ==>
              CreateBeancountTransaction(src, parseDate, txns[i]) == Success(r.value[i])
    ensures r.Failure? ==>
              var k := FirstRejected(parseDate, txns);
              k < |txns| && r.error == InvalidDate(txns[k].id, txns[k].date)
  {
    if txns == [] then Success([])
    else
      match CreateBeancountTransaction(src, parseDate, txns[0])
      case Failure(e) => Failure(e)
      case Success(tx) =>
        match ConvertAll(src, parseDate, txns[1..])
        case Failure(e) => Failure(e)
        case Success(rest) => Success([tx] + rest)
  }

  // ---------------------------------------------------------------------------
  // The driver

  /** The pending imports the driver emits for `entries`: one each, holding only that entry, dated by it. */
  function PendingEntries(entries: seq<Transaction>): (r: seq<ImportResult>)
    ensures |r| == |entries|
    ensures forall i :: 0 <= i < |entries| ==>
              r[i].entries == [entries[i]] && r[i].date == entries[i].date && r[i].info == None
  {
    if entries == [] then []
    else PendingEntries(entries[..|entries| - 1])
         + [ImportResult(entries[|entries| - 1].date, [entries[|entries| - 1]], None)]
  }

  /** What `prepare` emits: the fetched records, converted, as pending imports. */
  function Import(src: MercurySource, parseDate: string -> Option<Date>, respond: nat -> Response, horizon: nat)
    : Result<seq<ImportResult>, Error>
    requires EndsBy(respond, 0, horizon)
  {
    match FetchFrom(respond, 0, horizon)
    case Failure(e) => Failure(e)
    case Success(txns) =>
      match ConvertAll(src, parseDate, txns)
      case Failure(e) => Failure(e)
      case Success(entries) => Success(PendingEntries(entries))
  }

  /**
   * `prepare` emits one pending import per fetched record, in fetch order, each holding the single
   * transaction converted from that record and dated by it; it fails only when the fetch fails or
   * a record's date is rejected.
   */
  lemma ImportOnePerRecord(src: MercurySource, parseDate: string -> Option<Date>, respond: nat -> Response, horizon: nat)
    requires EndsBy(respond, 0, horizon)
    ensures var fetched := FetchFrom(respond, 0, horizon);
            var r := Import(src, parseDate, respond, horizon);
            && (r.Success? <==>
                  && fetched.Success?
                  && forall i :: 0 <= i < |fetched.value| ==> parseDate(fetched.value[i].date).Some?)
            && (r.Success? ==>
                  && |r.value| == |fetched.value|
                  && forall i :: 0 <= i < |r.value| ==>
                       && r.value[i].entries == [CreateBeancountTransaction(src, parseDate, fetched.value[i]).value]
                       && r.value[i].date == r.value[i].entries[0].date)
  {
  }

  /**
   * Against a server holding `data`, with every date accepted, `prepare` emits exactly one import
   * per record of `data`, each carrying that record's Mercury id, in the server's order.
   */
  lemma ImportIsComplete(src: MercurySource, parseDate: string -> Option<Date>, data: seq<RawTxn>)
    requires forall i :: 0 <= i < |data| ==> parseDate(data[i].date).Some?
    ensures EndsBy(SliceServer(data), 0, |data| / PageSize)
    ensures var r := Import(src, parseDate, SliceServer(data), |data| / PageSize);
            && r.Success? && |r.value| == |data|
            && forall i :: 0 <= i < |data| ==>
                 |r.value[i].entries| == 1 && r.value[i].entries[0].meta["mercury_id"] == data[i].id
  {
    FetchIsComplete(data, 0);
    assert data[PageSize * 0..] == data;
  }

  /**
   * `prepare`: fetch every record, convert them all, then emit one pending import per record and
   * register the assets account. An error leaves the results untouched.
   */
  method Prepare(src: MercurySource, parseDate: string -> Option<Date>, api: MercuryApi, ghost horizon: nat,
                 results: SourceResults)
    returns (outcome: Result<(), Error>)
    requires EndsBy(api.respond, 0, horizon)
    modifies api, results
    ensures api.requested == old(api.requested) + RequestsFrom(api.respond, 0, horizon)
    ensures outcome.Success? <==> Import(src, parseDate, api.respond, horizon).Success?
    ensures outcome.Failure? ==>
              && outcome.error == Import(src, parseDate, api.respond, horizon).error
              && results.pending == old(results.pending)
              && results.accounts == old(results.accounts)
    ensures outcome.Success? ==>
              && results.pending == old(results.pending) + Import(src, parseDate, api.respond, horizon).value
              && results.accounts == old(results.accounts) + {src.assetsAccount}
  {
    var fetched := FetchMercuryTransactions(api, horizon);
    if fetched.Failure? {
      return Failure(fetched.error);
    }
    var converted := ConvertAll(src, parseDate, fetched.value);
    if converted.Failure? {
      return Failure(converted.error);
    }
    AddPendingEntries(converted.value, results);
    results.AddAccount(src.assetsAccount);
    return Success(());
  }

  /** The loop of `prepare`: one pending import per entry, appended in order. */
  method AddPendingEntries(entries: seq<Transaction>, results: SourceResults)
    modifies results
    ensures results.pending == old(results.pending) + PendingEntries(entries)
    ensures results.accounts == old(results.accounts)
  {
    for i := 0 to |entries|
      invariant results.pending == old(results.pending) + PendingEntries(entries[..i])
      invariant results.accounts == old(results.accounts)
    {
      results.AddPendingEntry(ImportResult(entries[i].date, [entries[i]], None));
      assert entries[..i + 1][..i] == entries[..i];
    }
    assert entries[..|entries|] == entries;
  }

  // ---------------------------------------------------------------------------
  // The remaining source interface

  /** No Mercury posting is ever treated as cleared. */
  function IsPostingCleared(posting: Posting): (cleared: bool)
    ensures !cleared
  {
    false
  }

  /** The source offers no key-value pairs for training examples. */
  function GetExampleKeyValuePairs(transaction: Transaction, posting: Posting): (pairs: map<string, string>)
    ensures pairs == map[]
  {
    map[]
  }

  /** The source links no documents to any directive. */
  function GetAssociatedData(entry: Directive): (data: Option<seq<AssociatedData>>)
    ensures data == None
  {
    None
  }
}
