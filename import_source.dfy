/**
 * The import framework's side of a source (beancount_import.source): the result record a
 * source emits, the sink it emits into, and the placeholder account of beancount_import.matching.
 */
module ImportSource {
  import opened Wrappers
  import opened Beancount

  /** `FIXME_ACCOUNT`: the account that receives the leg still to be classified. */
  const FixmeAccount: Account := "Expenses:FIXME"

  /** One pending import: the entries to add to the journal and the date they sort under. */
  datatype ImportResult = ImportResult(date: Date, entries: seq<Transaction>, info: Option<Meta>)

  /** A document linked to an entry. */
  datatype AssociatedData = AssociatedData(description: string, link: string)

  /** The results sink `prepare` writes into: pending entries in order and the accounts the source covers. */
  class SourceResults {
    var pending: seq<ImportResult>
    var accounts: set<Account>

    constructor ()
      ensures pending == [] && accounts == {}
    {
      pending := [];
      accounts := {};
    }

    method AddPendingEntry(entry: ImportResult)
      modifies this
      ensures pending == old(pending) + [entry]
      ensures accounts == old(accounts)
    {
      pending := pending + [entry];
    }

    method AddAccount(account: Account)
      modifies this
      ensures accounts == old(accounts) + {account}
      ensures pending == old(pending)
    {
      accounts := accounts + {account};
    }
  }
}
