/** The ledger's directive records: amounts, postings and the closed union of directive kinds. */
module Data {
  import opened Wrappers
  import opened Dates

  /** A currency symbol, such as `USD`. */
  type Currency = string

  /** An account name, such as `Assets:Bank:Checking`. */
  type AccountName = string

  /** A number of units of a currency; `real` stands for the exact decimal. */
  datatype Amount = Amount(number: real, currency: Currency)

  /**
   One leg of a transaction: the units posted to an account, the per-unit cost
   of a lot held at cost, and the per-unit price of a conversion.
   */
  datatype Posting = Posting(
    account: AccountName,
    units: Amount,
    cost: Option<Amount>,
    price: Option<Amount>,
    flag: Option<char>)

  /** The directive kinds; every kind carries a date. */
  datatype Directive =
    | Open(date: Date, account: AccountName, currencies: seq<Currency>)
    | Close(date: Date, account: AccountName)
    | Balance(date: Date, account: AccountName, amount: Amount)
    | Pad(date: Date, account: AccountName, accountPad: AccountName)
    | Note(date: Date, account: AccountName, comment: string)
    | Document(date: Date, account: AccountName, filename: string)
    | Transaction(
        date: Date,
        flag: char,
        payee: Option<string>,
        narration: string,
        tags: set<string>,
        links: set<string>,
        postings: seq<Posting>)
    | Price(date: Date, currency: Currency, amount: Amount)
    | Event(date: Date, kind: string, description: string)

  /** Entries in chronological order, the order the ledger's consumers expect. */
  predicate Chronological(entries: seq<Directive>)
  {
    forall i, j :: 0 <= i < j < |entries| ==> NotAfter(entries[i].date, entries[j].date)
  }
}
