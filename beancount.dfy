/**
 * The few beancount ledger types the Mercury importer builds (beancount.core.data,
 * beancount.core.amount, beancount.core.flags), reduced to the fields it sets.
 */
module Beancount {
  import opened Wrappers

  type Account = string
  type Currency = string

  /** Entry metadata. The importer only stores strings in it. */
  type Meta = map<string, string>

  /** A calendar date, as `datetime.date` holds it. */
  datatype Date = Date(year: int, month: int, day: int)

  /** A number in a currency. Beancount numbers are exact decimals, so they are `real` here. */
  datatype Amount = Amount(number: real, currency: Currency)

  /** The per-unit cost of a posting (only its absence matters to the importer). */
  datatype Cost = Cost(number: real, currency: Currency)

  datatype Posting = Posting(
    account: Account,
    units: Amount,
    cost: Option<Cost>,
    price: Option<Amount>,
    flag: Option<char>,
    meta: Option<Meta>)

  datatype Transaction = Transaction(
    meta: Meta,
    date: Date,
    flag: char,
    payee: string,
    narration: string,
    tags: set<string>,
    links: set<string>,
    postings: seq<Posting>)

  /**
   * A ledger directive. Transactions are kept whole. Every other kind (Open, Balance, Note, ...)
   * is reduced to the date and metadata all directives share.
   */
  datatype Directive = TransactionDirective(transaction: Transaction) | OtherDirective(date: Date, meta: Meta)

  /** `FLAG_OKAY`: the flag of a completed transaction. */
  const FlagOkay: char := '*'

  /** The sum of the numbers of those postings whose units are in `currency`. */
  function UnitsIn(postings: seq<Posting>, currency: Currency): real
  {
    if postings == [] then 0.0
    else (if postings[0].units.currency == currency then postings[0].units.number else 0.0)
         + UnitsIn(postings[1..], currency)
  }

  /** Double-entry balance: in every currency that occurs, the postings sum to zero. */
  predicate Balanced(tx: Transaction)
  {
    forall p :: p in tx.postings ==> UnitsIn(tx.postings, p.units.currency) == 0.0
  }
}
