/**
 The ledgers of the closing-operation tests, with the balances they are expected
 to realize to, derived from the general lemmas about transfer and summarize.
 */
module SummarizeExamples {
  import opened Wrappers
  import opened Dates
  import opened Data
  import opened Realization
  import opened Summarize
  import Strings

  const USD: Currency := "USD"
  const Checking: AccountName := "Assets:Checking"
  const Job: AccountName := "Income:Job"
  const Restaurant: AccountName := "Expenses:Restaurant"
  const OpeningBalances: AccountName := "Equity:Opening-Balancess"
  const RetainedEarnings: AccountName := "Equity:Retained-Earnings"

  /** Income-statement accounts: those under the `Income` or `Expenses` root. */
  predicate IncomeStatement(a: AccountName)
  {
    Strings.StartsWith(a, "Income:") || Strings.StartsWith(a, "Expenses:")
  }

  lemma IncomeStatementAccounts()
    ensures IncomeStatement(Job) && IncomeStatement(Restaurant)
    ensures !IncomeStatement(Checking) && !IncomeStatement(RetainedEarnings) && !IncomeStatement(OpeningBalances)
  {
    UnderRoot(Job, "Income:");
    UnderRoot(Restaurant, "Expenses:");
    NotUnderRoots(Checking, 0);
    NotUnderRoots(RetainedEarnings, 1);
    NotUnderRoots(OpeningBalances, 1);
  }

  /** A name that begins with a root's prefix is under that root. */
  lemma UnderRoot(a: AccountName, root: string)
    requires |root| <= |a| && a[..|root|] == root
    ensures Strings.StartsWith(a, root)
  {
  }

  /** A name that differs from both `Income:` and `Expenses:` at position `j` is under neither. */
  lemma NotUnderRoots(a: AccountName, j: nat)
    requires j < |a| && j < 7
    requires a[j] != "Income:"[j] && a[j] != "Expenses:"[j]
    ensures !IncomeStatement(a)
  {
  }

  /** The accounts of the examples are pairwise different. */
  lemma NamesDistinct()
    ensures Checking != Job && Checking != Restaurant && Checking != OpeningBalances && Checking != RetainedEarnings
    ensures Job != Restaurant && Job != OpeningBalances && Job != RetainedEarnings
    ensures Restaurant != OpeningBalances && Restaurant != RetainedEarnings
    ensures OpeningBalances != RetainedEarnings
  {
    assert Checking[0] == 'A' && Job[0] == 'I' && Restaurant[0] == 'E' && OpeningBalances[0] == 'E';
    assert Restaurant[1] == 'x' && OpeningBalances[1] == 'q' && RetainedEarnings[0] == 'E' && RetainedEarnings[1] == 'q';
    assert OpeningBalances[7] == 'O' && RetainedEarnings[7] == 'R';
  }

  /** A transaction moving `x` USD onto `a` and off `b`, in that posting order. */
  function Move(d: Date, narration: string, a: AccountName, x: real, b: AccountName): Directive
  {
    Transaction(d, '*', None, narration, {}, {}, [Leg(a, x, USD), Leg(b, -x, USD)])
  }

  function OpenOf(a: AccountName): Directive
  {
    Open(Date(2011, 1, 1), a, [])
  }

  lemma MoveSum(d: Date, narration: string, a: AccountName, x: real, b: AccountName, k: Key)
    ensures EntrySum(Move(d, narration, a, x, b), k) ==
      (if k == (a, USD) then x else 0.0) + (if k == (b, USD) then -x else 0.0)
  {
    PostingsSumPair(Leg(a, x, USD), Leg(b, -x, USD), k);
  }

  lemma MoveCurrencySum(d: Date, narration: string, a: AccountName, x: real, b: AccountName,
                        pred: AccountName -> bool, c: Currency)
    ensures CurrencySum(Move(d, narration, a, x, b).postings, pred, c) ==
      (if pred(a) && c == USD then x else 0.0) + (if pred(b) && c == USD then -x else 0.0)
  {
    CurrencySumPair(Leg(a, x, USD), Leg(b, -x, USD), pred, c);
  }

  lemma BalanceCons(e: Directive, rest: seq<Directive>, k: Key)
    ensures BalanceAfter([e] + rest, k) == EntrySum(e, k) + BalanceAfter(rest, k)
  {
    assert ([e] + rest)[1..] == rest;
  }

  lemma CurrencyTotalCons(e: Directive, rest: seq<Directive>, pred: AccountName -> bool, c: Currency)
    ensures CurrencyTotal([e] + rest, pred, c) ==
      (if e.Transaction? then CurrencySum(e.postings, pred, c) else 0.0) + CurrencyTotal(rest, pred, c)
  {
    assert ([e] + rest)[1..] == rest;
  }

  // ---------------------------------------------------------------------
  // Two salaries, one each side of 2012-01-01.

  function SalaryLedger(): seq<Directive>
  {
    [OpenOf(Checking), OpenOf(Job),
     Move(Date(2011, 2, 1), "Salary", Job, -1000.0, Checking),
     Move(Date(2012, 2, 1), "Salary Next year", Job, -1000.0, Checking)]
  }

  lemma SalaryBalances(k: Key)
    ensures BalanceAfter(SalaryLedger(), k) ==
      (if k == (Checking, USD) then 2000.0 else if k == (Job, USD) then -2000.0 else 0.0)
  {
    NamesDistinct();
    var l := SalaryLedger();
    BalanceCons(l[0], l[1..], k);
    BalanceCons(l[1], l[2..], k);
    BalanceCons(l[2], l[3..], k);
    BalanceOne(l[3], k);
    MoveSum(Date(2011, 2, 1), "Salary", Job, -1000.0, Checking, k);
    MoveSum(Date(2012, 2, 1), "Salary Next year", Job, -1000.0, Checking, k);
  }

  /** Realizing the two salaries: 2000 USD on the checking account, -2000 USD on the job. */
  lemma RealizeSalaries()
    ensures BalanceOf(Realize(SalaryLedger()), (Checking, USD)) == 2000.0
    ensures BalanceOf(Realize(SalaryLedger()), (Job, USD)) == -2000.0
  {
    SalaryBalances((Checking, USD));
    SalaryBalances((Job, USD));
  }

  lemma SalaryBalanced()
    ensures AllBalanced(SalaryLedger())
  {
    var l := SalaryLedger();
    forall i, c | 0 <= i < |l| && l[i].Transaction?
      ensures CurrencySum(l[i].postings, AnyAccount, c) == 0.0
    {
      MoveCurrencySum(l[i].date, l[i].narration, Job, -1000.0, Checking, AnyAccount, c);
    }
  }

  /** The whole salary ledger lies before 2012-06-01. */
  lemma SalaryBeforeJune()
    ensures Prefix(SalaryLedger(), Date(2012, 6, 1)) == SalaryLedger()
  {
    var l := SalaryLedger();
    PrefixAt(l, Date(2012, 6, 1), 4);
    assert l[..4] == l;
  }

  /**
   Transferring the income statement at 2012-06-01 into retained earnings: the
   job is emptied, retained earnings receive its -2000 USD, checking keeps 2000 USD.
   */
  lemma TransferSalaries(k: Key)
    ensures BalanceOf(Realize(Transfer(SalaryLedger(), Date(2012, 6, 1), IncomeStatement, RetainedEarnings)), k) ==
      (if k == (Checking, USD) then 2000.0
       else if k == (RetainedEarnings, USD) then -2000.0
       else 0.0)
  {
    NamesDistinct();
    SalaryBeforeJune();
    SalaryBalances(k);
    TransferBalance(SalaryLedger(), Date(2012, 6, 1), IncomeStatement, RetainedEarnings, k);
    SalaryIncomeTotal(k.1);
    IncomeStatementAccounts();
  }

  /** Over the salary ledger the income statement moved -2000 USD and nothing in any other currency. */
  lemma SalaryIncomeTotal(c: Currency)
    ensures CurrencyTotal(SalaryLedger(), IncomeStatement, c) == if c == USD then -2000.0 else 0.0
  {
    var l := SalaryLedger();
    CurrencyTotalCons(l[0], l[1..], IncomeStatement, c);
    CurrencyTotalCons(l[1], l[2..], IncomeStatement, c);
    CurrencyTotalCons(l[2], l[3..], IncomeStatement, c);
    CurrencyTotalCons(l[3], l[4..], IncomeStatement, c);
    MoveCurrencySum(Date(2011, 2, 1), "Salary", Job, -1000.0, Checking, IncomeStatement, c);
    MoveCurrencySum(Date(2012, 2, 1), "Salary Next year", Job, -1000.0, Checking, IncomeStatement, c);
    IncomeStatementAccounts();
  }

  /** Summarizing the two salaries at 2012-01-01 keeps every realized balance. */
  lemma SummarizeSalaries()
    ensures CompareRealizations(Realize(SalaryLedger()),
                                Realize(Summarize.Summarize(SalaryLedger(), Date(2012, 1, 1), OpeningBalances)))
  {
    SalaryBalanced();
    SummarizePreserves(SalaryLedger(), Date(2012, 1, 1), OpeningBalances);
  }

  lemma SalaryHistory()
    ensures Prefix(SalaryLedger(), Date(2012, 1, 1)) == SalaryLedger()[..3]
    ensures BalanceAfter(SalaryLedger()[..3], (Checking, USD)) == 1000.0
  {
    NamesDistinct();
    var l := SalaryLedger();
    PrefixAt(l, Date(2012, 1, 1), 3);
    var before := l[..3];
    var k := (Checking, USD);
    BalanceCons(before[0], before[1..], k);
    BalanceCons(before[1], before[2..], k);
    BalanceOne(before[2], k);
    MoveSum(Date(2011, 2, 1), "Salary", Job, -1000.0, Checking, k);
  }

  /** The transaction summarizing the two salaries at 2012-01-01 posts to the opening-balances account. */
  lemma SummarizeSalariesOpening()
    ensures var s := SummaryEntry(SalaryLedger(), Date(2012, 1, 1), OpeningBalances);
      exists i :: 0 <= i < |s.postings| && s.postings[i].account == OpeningBalances
  {
    SalaryHistory();
    SummaryEntryPostsToOpening(SalaryLedger(), Date(2012, 1, 1), OpeningBalances, (Checking, USD));
  }

  // ---------------------------------------------------------------------
  // Transfer, then summarize, at 2012-01-01.

  function DiningLedger(): seq<Directive>
  {
    [OpenOf(Checking), OpenOf(Job), OpenOf(Restaurant),
     Move(Date(2011, 6, 1), "Salary", Job, -1000.0, Checking),
     Move(Date(2011, 6, 2), "Eating out", Restaurant, 80.0, Checking),
     Balance(Date(2012, 1, 1), Checking, Amount(920.0, USD)),
     Move(Date(2012, 6, 1), "Salary", Job, -1000.0, Checking)]
  }

  lemma DiningEarlyBalances(k: Key)
    ensures BalanceAfter(DiningLedger()[..5], k) ==
      (if k == (Checking, USD) then 920.0
       else if k == (Job, USD) then -1000.0
       else if k == (Restaurant, USD) then 80.0
       else 0.0)
  {
    NamesDistinct();
    var l := DiningLedger()[..5];
    BalanceCons(l[0], l[1..], k);
    BalanceCons(l[1], l[2..], k);
    BalanceCons(l[2], l[3..], k);
    BalanceCons(l[3], l[4..], k);
    BalanceOne(l[4], k);
    MoveSum(Date(2011, 6, 1), "Salary", Job, -1000.0, Checking, k);
    MoveSum(Date(2011, 6, 2), "Eating out", Restaurant, 80.0, Checking, k);
  }

  lemma DiningBalances(k: Key)
    ensures BalanceAfter(DiningLedger(), k) ==
      (if k == (Checking, USD) then 1920.0
       else if k == (Job, USD) then -2000.0
       else if k == (Restaurant, USD) then 80.0
       else 0.0)
  {
    NamesDistinct();
    var l := DiningLedger();
    assert l == l[..5] + [l[5]] + [l[6]];
    DiningEarlyBalances(k);
    BalanceAppend(l[..5] + [l[5]], [l[6]], k);
    BalanceAppend(l[..5], [l[5]], k);
    BalanceOne(l[5], k);
    BalanceOne(l[6], k);
    MoveSum(Date(2012, 6, 1), "Salary", Job, -1000.0, Checking, k);
  }

  /** Three directives that post nothing, then two transactions: the total is what the two post. */
  lemma TwoMovesTotal(o1: Directive, o2: Directive, o3: Directive, m1: Directive, m2: Directive,
                      pred: AccountName -> bool, c: Currency)
    requires !o1.Transaction? && !o2.Transaction? && !o3.Transaction? && m1.Transaction? && m2.Transaction?
    ensures CurrencyTotal([o1, o2, o3, m1, m2], pred, c) ==
      CurrencySum(m1.postings, pred, c) + CurrencySum(m2.postings, pred, c)
  {
    CurrencyTotalCons(o1, [o2, o3, m1, m2], pred, c);
    CurrencyTotalCons(o2, [o3, m1, m2], pred, c);
    CurrencyTotalCons(o3, [m1, m2], pred, c);
    CurrencyTotalCons(m1, [m2], pred, c);
    CurrencyTotalCons(m2, [], pred, c);
    assert [o1, o2, o3, m1, m2] == [o1] + [o2, o3, m1, m2];
    assert [o2, o3, m1, m2] == [o2] + [o3, m1, m2];
    assert [o3, m1, m2] == [o3] + [m1, m2];
    assert [m1, m2] == [m1] + [m2];
    assert [m2] == [m2] + [];
  }

  /** Over the entries before 2012-01-01, the income statement moved -920 USD and all accounts together nothing. */
  lemma DiningEarlyTotals(c: Currency)
    ensures CurrencyTotal(DiningLedger()[..5], IncomeStatement, c) == if c == USD then -920.0 else 0.0
    ensures CurrencyTotal(DiningLedger()[..5], AnyAccount, c) == 0.0
  {
    var m1 := Move(Date(2011, 6, 1), "Salary", Job, -1000.0, Checking);
    var m2 := Move(Date(2011, 6, 2), "Eating out", Restaurant, 80.0, Checking);
    assert DiningLedger()[..5] == [OpenOf(Checking), OpenOf(Job), OpenOf(Restaurant), m1, m2];
    TwoMovesTotal(OpenOf(Checking), OpenOf(Job), OpenOf(Restaurant), m1, m2, IncomeStatement, c);
    TwoMovesTotal(OpenOf(Checking), OpenOf(Job), OpenOf(Restaurant), m1, m2, AnyAccount, c);
    MoveCurrencySum(Date(2011, 6, 1), "Salary", Job, -1000.0, Checking, IncomeStatement, c);
    MoveCurrencySum(Date(2011, 6, 2), "Eating out", Restaurant, 80.0, Checking, IncomeStatement, c);
    MoveCurrencySum(Date(2011, 6, 1), "Salary", Job, -1000.0, Checking, AnyAccount, c);
    MoveCurrencySum(Date(2011, 6, 2), "Eating out", Restaurant, 80.0, Checking, AnyAccount, c);
    IncomeStatementAccounts();
  }

  /** After the transfer at 2012-01-01: the year's income statement sits in retained earnings. */
  lemma DiningTransferred(k: Key)
    ensures var t := Transfer(DiningLedger(), Date(2012, 1, 1), IncomeStatement, RetainedEarnings);
      && Prefix(t, Date(2012, 1, 1)) == DiningLedger()[..5]
      && BalanceAfter(t, k) ==
        (if k == (Checking, USD) then 1920.0
         else if k == (RetainedEarnings, USD) then -920.0
         else if k == (Job, USD) then -1000.0
         else 0.0)
  {
    var l := DiningLedger();
    var d := Date(2012, 1, 1);
    PrefixAt(l, d, 5);
    PrefixOfTransfer(l, d, IncomeStatement, RetainedEarnings);
    DiningBalances(k);
    DiningEarlyBalances(k);
    DiningEarlyTotals(k.1);
    DiningTransferFrom(l, d, k);
  }

  /** The dining transfer for any ledger with the dining ledger's balances and totals. */
  lemma DiningTransferFrom(l: seq<Directive>, d: Date, k: Key)
    requires BalanceAfter(l, k) ==
      (if k == (Checking, USD) then 1920.0
       else if k == (Job, USD) then -2000.0
       else if k == (Restaurant, USD) then 80.0
       else 0.0)
    requires BalanceAfter(Prefix(l, d), k) ==
      (if k == (Checking, USD) then 920.0
       else if k == (Job, USD) then -1000.0
       else if k == (Restaurant, USD) then 80.0
       else 0.0)
    requires CurrencyTotal(Prefix(l, d), IncomeStatement, k.1) == if k.1 == USD then -920.0 else 0.0
    ensures BalanceAfter(Transfer(l, d, IncomeStatement, RetainedEarnings), k) ==
      (if k == (Checking, USD) then 1920.0
       else if k == (RetainedEarnings, USD) then -920.0
       else if k == (Job, USD) then -1000.0
       else 0.0)
  {
    var total := BalanceAfter(l, k);
    var early := BalanceAfter(Prefix(l, d), k);
    var moved := CurrencyTotal(Prefix(l, d), IncomeStatement, k.1);
    TransferredAmounts(l, d, IncomeStatement, RetainedEarnings, k, total, early, moved);
    DiningTransferCases(k, total, early, moved);
  }

  /** The arithmetic of the dining transfer, account by account. */
  lemma DiningTransferCases(k: Key, total: real, early: real, moved: real)
    requires total ==
      (if k == (Checking, USD) then 1920.0
       else if k == (Job, USD) then -2000.0
       else if k == (Restaurant, USD) then 80.0
       else 0.0)
    requires early ==
      (if k == (Checking, USD) then 920.0
       else if k == (Job, USD) then -1000.0
       else if k == (Restaurant, USD) then 80.0
       else 0.0)
    requires moved == if k.1 == USD then -920.0 else 0.0
    ensures total - (if IncomeStatement(k.0) then early else 0.0) + (if k.0 == RetainedEarnings then moved else 0.0) ==
      (if k == (Checking, USD) then 1920.0
       else if k == (RetainedEarnings, USD) then -920.0
       else if k == (Job, USD) then -1000.0
       else 0.0)
  {
    NamesDistinct();
    IncomeStatementAccounts();
    if k.0 == Checking || k.0 == Job || k.0 == Restaurant {
    } else if k.0 == RetainedEarnings {
    } else {
      assert total == 0.0 && early == 0.0;
    }
  }

  /** `TransferBalance` with the three quantities it combines given by name. */
  lemma TransferredAmounts(entries: seq<Directive>, date: Date, pred: AccountName -> bool, target: AccountName,
                           k: Key, total: real, early: real, moved: real)
    requires BalanceAfter(entries, k) == total
    requires BalanceAfter(Prefix(entries, date), k) == early
    requires CurrencyTotal(Prefix(entries, date), pred, k.1) == moved
    ensures BalanceAfter(Transfer(entries, date, pred, target), k) ==
      total - (if pred(k.0) then early else 0.0) + (if k.0 == target then moved else 0.0)
  {
    TransferBalance(entries, date, pred, target, k);
  }

  /**
   Transferring the income statement into retained earnings and then summarizing
   at 2012-01-01: checking holds 1920 USD, retained earnings -920 USD, the job
   only this year's -1000 USD, the restaurant and the opening account nothing.
   */
  lemma TransferThenSummarize(k: Key)
    ensures var d := Date(2012, 1, 1);
      var r := Realize(Summarize.Summarize(Transfer(DiningLedger(), d, IncomeStatement, RetainedEarnings), d, OpeningBalances));
      BalanceOf(r, k) ==
        (if k == (Checking, USD) then 1920.0
         else if k == (RetainedEarnings, USD) then -920.0
         else if k == (Job, USD) then -1000.0
         else 0.0)
  {
    NamesDistinct();
    var d := Date(2012, 1, 1);
    var t := Transfer(DiningLedger(), d, IncomeStatement, RetainedEarnings);
    DiningTransferred(k);
    DiningEarlyTotals(k.1);
    SummarizeBalance(t, d, OpeningBalances, k);
  }
}
