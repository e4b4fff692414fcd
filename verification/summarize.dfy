/**
 Closing operations over a ledger: the Open directives in force at a date,
 transferring income-statement balances into equity, and summarizing the
 history before a date into one opening-balances transaction.
 */
module Summarize {
  import opened Wrappers
  import opened Dates
  import opened Data
  import opened Realization
  import Prices

  // ---------------------------------------------------------------------
  // Sorting by date.

  /** A lower bound on the dates of `t` and of `x` bounds every date of a sequence holding the same entries. */
  lemma BoundCarries(d: Date, x: Directive, t: seq<Directive>, r: seq<Directive>)
    requires multiset(r) == multiset(t) + multiset{x}
    requires NotAfter(d, x.date)
    requires forall i :: 0 <= i < |t| ==> NotAfter(d, t[i].date)
    ensures forall i :: 0 <= i < |r| ==> NotAfter(d, r[i].date)
  {
    forall i | 0 <= i < |r|
      ensures NotAfter(d, r[i].date)
    {
      assert r[i] in multiset(r);
      if r[i] != x {
        assert r[i] in multiset(t);
        var j :| 0 <= j < |t| && t[j] == r[i];
      }
    }
  }

  /** Putting an entry no later than all of a chronological sequence in front keeps it chronological. */
  lemma ConsChronological(e: Directive, r: seq<Directive>)
    requires Chronological(r)
    requires forall i :: 0 <= i < |r| ==> NotAfter(e.date, r[i].date)
    ensures Chronological([e] + r)
  {
    var s := [e] + r;
    forall i, j | 0 <= i < j < |s|
      ensures NotAfter(s[i].date, s[j].date)
    {
      if i > 0 {
        assert s[i] == r[i - 1] && s[j] == r[j - 1];
      } else {
        assert s[j] == r[j - 1];
      }
    }
  }

  /** Insert `x` after every entry not later than it: a stable insertion. */
  function InsertByDate(x: Directive, s: seq<Directive>): (r: seq<Directive>)
    requires Chronological(s)
    ensures Chronological(r)
    ensures multiset(r) == multiset(s) + multiset{x}
    decreases |s|
  {
    if |s| == 0 then [x]
    else if Before(x.date, s[0].date) then
      assert forall i :: 0 <= i < |s| ==> NotAfter(x.date, s[i].date);
      ConsChronological(x, s);
      [x] + s
    else
      var t := s[1..];
      var rest := InsertByDate(x, t);
      assert s == [s[0]] + t;
      BoundCarries(s[0].date, x, t, rest);
      ConsChronological(s[0], rest);
      [s[0]] + rest
  }

  /** Stable sort by date: insert each entry, in input order, into the sorted ones before it. */
  function SortByDate(s: seq<Directive>): (r: seq<Directive>)
    ensures Chronological(r)
    ensures multiset(r) == multiset(s)
    decreases |s|
  {
    if |s| == 0 then []
    else
      assert s == s[..|s| - 1] + [s[|s| - 1]];
      InsertByDate(s[|s| - 1], SortByDate(s[..|s| - 1]))
  }

  /** Inserting an entry no earlier than all the others appends it. */
  lemma {:induction false} InsertLast(x: Directive, s: seq<Directive>)
    requires Chronological(s)
    requires forall i :: 0 <= i < |s| ==> NotAfter(s[i].date, x.date)
    ensures InsertByDate(x, s) == s + [x]
    decreases |s|
  {
    if |s| > 0 {
      var t := s[1..];
      assert Chronological(t) by {
        forall i, j | 0 <= i < j < |t|
          ensures NotAfter(t[i].date, t[j].date)
        {
          assert t[i] == s[i + 1] && t[j] == s[j + 1];
        }
      }
      assert forall i :: 0 <= i < |t| ==> NotAfter(t[i].date, x.date) by {
        forall i | 0 <= i < |t|
          ensures NotAfter(t[i].date, x.date)
        {
          assert t[i] == s[i + 1];
        }
      }
      InsertLast(x, t);
      assert !Before(x.date, s[0].date);
      assert s + [x] == [s[0]] + (t + [x]);
    }
  }

  /** Sorting entries already in date order leaves them as they are. */
  lemma {:induction false} SortChronological(s: seq<Directive>)
    requires Chronological(s)
    ensures SortByDate(s) == s
    decreases |s|
  {
    if |s| > 0 {
      var init := s[..|s| - 1];
      SortChronological(init);
      InsertLast(s[|s| - 1], init);
      assert init + [s[|s| - 1]] == s;
    }
  }

  // ---------------------------------------------------------------------
  // open_at_date.

  /** The Open directives dated strictly before `date`, in input order. */
  function OpensBefore(entries: seq<Directive>, date: Date): (r: seq<Directive>)
    ensures forall x :: x in r <==> x in entries && x.Open? && Before(x.date, date)
    decreases |entries|
  {
    if |entries| == 0 then []
    else
      var rest := OpensBefore(entries[1..], date);
      assert forall x :: x in entries <==> x == entries[0] || x in entries[1..] by {
        assert entries == [entries[0]] + entries[1..];
      }
      if entries[0].Open? && Before(entries[0].date, date) then [entries[0]] + rest else rest
  }

  /**
   `open_at_date`: the Open directives dated before `date`, each as often as it
   occurs, in ascending date order whatever the input order.
   */
  function OpenAtDate(entries: seq<Directive>, date: Date): (r: seq<Directive>)
    ensures Chronological(r)
    ensures multiset(r) == multiset(OpensBefore(entries, date))
    ensures forall x :: x in r <==> x in entries && x.Open? && Before(x.date, date)
  {
    var opens := OpensBefore(entries, date);
    var r := SortByDate(opens);
    assert forall x :: x in r <==> x in opens by {
      forall x
        ensures x in r <==> x in opens
      {
        assert x in r <==> x in multiset(r);
        assert x in opens <==> x in multiset(opens);
      }
    }
    r
  }

  // ---------------------------------------------------------------------
  // transfer.

  /** A plain posting of `x` units of `c` on account `a`. */
  function Leg(a: AccountName, x: real, c: Currency): Posting
  {
    Posting(a, Amount(x, c), None, None, None)
  }

  const TransferFlag: char := 'T'

  const SummarizeFlag: char := 'S'

  /**
   A two-leg transaction that empties a listed key selected by `pred`: its first
   leg takes the key's nonzero balance out of the account, its second brings it
   into `target`, in the same currency.
   */
  predicate TransfersOut(t: Directive, ks: seq<Key>, b: Balances, pred: AccountName -> bool, target: AccountName)
    requires t.Transaction? && |t.postings| == 2
  {
    var out := t.postings[0];
    var into := t.postings[1];
    && (out.account, out.units.currency) in ks
    && pred(out.account)
    && into.account == target
    && into.units.currency == out.units.currency
    && into.units.number == BalanceOf(b, (out.account, out.units.currency)) != 0.0
    && out.units.number == -into.units.number
  }

  /**
   One transaction per listed key whose account `pred` selects and whose balance
   is nonzero: it empties the account in that currency into `target`.
   */
  function TransferEntries(ks: seq<Key>, b: Balances, date: Date, pred: AccountName -> bool, target: AccountName)
    : (r: seq<Directive>)
    ensures |r| <= |ks|
    ensures forall i :: 0 <= i < |r| ==> r[i].Transaction? && r[i].date == date && |r[i].postings| == 2
    ensures forall i :: 0 <= i < |r| ==> TransfersOut(r[i], ks, b, pred, target)
    decreases |ks|
  {
    if |ks| == 0 then []
    else
      var k := ks[0];
      var x := BalanceOf(b, k);
      var rest := TransferEntries(ks[1..], b, date, pred, target);
      if pred(k.0) && x != 0.0 then
        [Transaction(date, TransferFlag, None, "Transfer balance for '" + k.0 + "'", {}, {},
                     [Leg(k.0, -x, k.1), Leg(target, x, k.1)])] + rest
      else rest
  }

  /**
   What the transfer transactions post to `k`: its listed balance taken out when
   `pred` selects its account, and the selected total of its currency brought into
   the target.
   */
  lemma {:induction false} TransferEntriesBalance(ks: seq<Key>, b: Balances, date: Date,
                                                  pred: AccountName -> bool, target: AccountName, k: Key)
    ensures BalanceAfter(TransferEntries(ks, b, date, pred, target), k) ==
      (if k.0 == target then TotalIn(ks, b, pred, k.1) else 0.0)
      - (if pred(k.0) then KeySum(ks, b, k) else 0.0)
    decreases |ks|
  {
    if |ks| > 0 {
      TransferEntriesBalance(ks[1..], b, date, pred, target, k);
      var j := ks[0];
      var x := BalanceOf(b, j);
      if pred(j.0) && x != 0.0 {
        var t := Transaction(date, TransferFlag, None, "Transfer balance for '" + j.0 + "'", {}, {},
                             [Leg(j.0, -x, j.1), Leg(target, x, j.1)]);
        PostingsSumPair(Leg(j.0, -x, j.1), Leg(target, x, j.1), k);
        BalanceOne(t, k);
        BalanceAppend([t], TransferEntries(ks[1..], b, date, pred, target), k);
      }
    }
  }

  /** Each transfer transaction balances in its currency. */
  lemma {:induction false} TransferEntriesBalanced(ks: seq<Key>, b: Balances, date: Date,
                                                   pred: AccountName -> bool, target: AccountName)
    ensures AllBalanced(TransferEntries(ks, b, date, pred, target))
    decreases |ks|
  {
    if |ks| > 0 {
      var r := TransferEntries(ks, b, date, pred, target);
      var rest := TransferEntries(ks[1..], b, date, pred, target);
      TransferEntriesBalanced(ks[1..], b, date, pred, target);
      var j := ks[0];
      var x := BalanceOf(b, j);
      if pred(j.0) && x != 0.0 {
        forall i, c | 0 <= i < |r| && r[i].Transaction?
          ensures CurrencySum(r[i].postings, AnyAccount, c) == 0.0
        {
          if i > 0 {
            assert r[i] == rest[i - 1];
          } else {
            CurrencySumPair(Leg(j.0, -x, j.1), Leg(target, x, j.1), AnyAccount, c);
          }
        }
      }
    }
  }

  /** Where the three parts of a concatenation sit. */
  lemma ThreeParts(a: seq<Directive>, m: seq<Directive>, c: seq<Directive>)
    ensures var r := a + m + c;
      && |r| == |a| + |m| + |c|
      && r[..|a|] == a
      && r[|r| - |c|..] == c
      && forall i :: |a| <= i < |r| - |c| ==> r[i] == m[i - |a|]
  {
  }

  /** The entries before the first one dated on or after `date`. */
  function Prefix(entries: seq<Directive>, date: Date): (r: seq<Directive>)
    ensures |r| <= |entries| && r == entries[..|r|]
    ensures forall i :: 0 <= i < |r| ==> Before(r[i].date, date)
    ensures |r| < |entries| ==> !Before(entries[|r|].date, date)
  {
    Prices.EntriesBefore(entries, Some(date))
  }

  /** The prefix before `date` ends at the first entry not dated before it. */
  lemma PrefixAt(entries: seq<Directive>, date: Date, n: nat)
    requires n <= |entries|
    requires forall i :: 0 <= i < n ==> Before(entries[i].date, date)
    requires n < |entries| ==> !Before(entries[n].date, date)
    ensures Prefix(entries, date) == entries[..n]
  {
    var r := Prefix(entries, date);
    assert n <= |r| ==> r[..n] == entries[..n];
  }

  /**
   `transfer`: the entries before `date` unchanged, then the transactions dated
   `date` that empty every account `pred` selects into `target`, then the
   remaining entries unchanged.
   */
  function Transfer(entries: seq<Directive>, date: Date, pred: AccountName -> bool, target: AccountName)
    : (r: seq<Directive>)
    ensures var n := |Prefix(entries, date)|;
      && |entries| <= |r|
      && r[..n] == entries[..n]
      && r[|r| - (|entries| - n)..] == entries[n..]
      && forall i :: n <= i < |r| - (|entries| - n) ==> r[i].Transaction? && r[i].date == date
  {
    var before := Prefix(entries, date);
    var after := entries[|before|..];
    var moves := TransferEntries(KeysInOrder(before), Realize(before), date, pred, target);
    ThreeParts(before, moves, after);
    before + moves + after
  }

  /** A transfer leaves the history before `date` as it was. */
  lemma PrefixOfTransfer(entries: seq<Directive>, date: Date, pred: AccountName -> bool, target: AccountName)
    ensures Prefix(Transfer(entries, date, pred, target), date) == Prefix(entries, date)
  {
    var r := Transfer(entries, date, pred, target);
    var before := Prefix(entries, date);
    var n := |before|;
    assert r[..n] == before;
    if n < |r| {
      if n < |r| - (|entries| - n) {
        assert r[n].date == date;
      } else {
        assert r[n] == entries[n..][0];
      }
    }
    PrefixAt(r, date, n);
  }

  /**
   The balance of every (account, currency) after a transfer: the accounts `pred`
   selects lose what they held before `date`, and `target` gains, per currency,
   everything those accounts held; nothing else changes.
   */
  lemma TransferBalance(entries: seq<Directive>, date: Date, pred: AccountName -> bool, target: AccountName, k: Key)
    ensures var before := Prefix(entries, date);
      BalanceAfter(Transfer(entries, date, pred, target), k) ==
        BalanceAfter(entries, k)
        - (if pred(k.0) then BalanceAfter(before, k) else 0.0)
        + (if k.0 == target then CurrencyTotal(before, pred, k.1) else 0.0)
  {
    var before := Prefix(entries, date);
    var after := entries[|before|..];
    var moves := TransferEntries(KeysInOrder(before), Realize(before), date, pred, target);
    TransferParts(entries, date, pred, target);
    BalanceAppend(before, after, k);
    BalanceThree(before, moves, after, k);
    MovesBalance(before, date, pred, target, k);
  }

  /** A ledger is its history before `date` followed by the rest; a transfer puts its moves between them. */
  lemma TransferParts(entries: seq<Directive>, date: Date, pred: AccountName -> bool, target: AccountName)
    ensures var before := Prefix(entries, date);
      && entries == before + entries[|before|..]
      && Transfer(entries, date, pred, target) ==
           before + TransferEntries(KeysInOrder(before), Realize(before), date, pred, target) + entries[|before|..]
  {
    var before := Prefix(entries, date);
    assert entries == entries[..|before|] + entries[|before|..];
  }

  /** The balance after three runs of entries is the sum of the balances after each. */
  lemma BalanceThree(a: seq<Directive>, b: seq<Directive>, c: seq<Directive>, k: Key)
    ensures BalanceAfter(a + b + c, k) == BalanceAfter(a, k) + BalanceAfter(b, k) + BalanceAfter(c, k)
  {
    BalanceAppend(a + b, c, k);
    BalanceAppend(a, b, k);
  }

  /**
   The transfer transactions built from the realization of `before` empty every
   account `pred` selects and put its currency total on the target.
   */
  lemma MovesBalance(before: seq<Directive>, date: Date, pred: AccountName -> bool, target: AccountName, k: Key)
    ensures BalanceAfter(TransferEntries(KeysInOrder(before), Realize(before), date, pred, target), k) ==
      (if k.0 == target then CurrencyTotal(before, pred, k.1) else 0.0)
      - (if pred(k.0) then BalanceAfter(before, k) else 0.0)
  {
    var ks := KeysInOrder(before);
    var b := Realize(before);
    TransferEntriesBalance(ks, b, date, pred, target, k);
    KeySumDistinct(ks, b, k);
    RealizedTotal(before, pred, k.1);
    assert BalanceOf(b, k) == BalanceAfter(before, k);
  }

  /** A transfer keeps every currency's total over all accounts. */
  lemma TransferKeepsTotals(entries: seq<Directive>, date: Date, pred: AccountName -> bool, target: AccountName, c: Currency)
    ensures CurrencyTotal(Transfer(entries, date, pred, target), AnyAccount, c) == CurrencyTotal(entries, AnyAccount, c)
  {
    var before := Prefix(entries, date);
    var after := entries[|before|..];
    var moves := TransferEntries(KeysInOrder(before), Realize(before), date, pred, target);
    TransferParts(entries, date, pred, target);
    CurrencyTotalAppend(before, after, AnyAccount, c);
    CurrencyTotalAppend(before + moves, after, AnyAccount, c);
    CurrencyTotalAppend(before, moves, AnyAccount, c);
    TransferEntriesBalanced(KeysInOrder(before), Realize(before), date, pred, target);
    AllBalancedTotal(moves, c);
  }

  // ---------------------------------------------------------------------
  // summarize.

  /**
   The postings of the summarizing transaction: for every listed key with a
   nonzero balance, one posting restoring it and one taking it from `opening`.
   */
  function SummaryPostings(ks: seq<Key>, b: Balances, opening: AccountName): seq<Posting>
    decreases |ks|
  {
    if |ks| == 0 then []
    else
      var k := ks[0];
      var x := BalanceOf(b, k);
      var rest := SummaryPostings(ks[1..], b, opening);
      if x != 0.0 then [Leg(k.0, x, k.1), Leg(opening, -x, k.1)] + rest else rest
  }

  /**
   What the summarizing postings put on `k`: its listed balance, less, on the
   opening account, the total of all listed balances in its currency.
   */
  lemma {:induction false} SummaryPostingsSum(ks: seq<Key>, b: Balances, opening: AccountName, k: Key)
    ensures PostingsSum(SummaryPostings(ks, b, opening), k) ==
      KeySum(ks, b, k) - (if k.0 == opening then TotalIn(ks, b, AnyAccount, k.1) else 0.0)
    decreases |ks|
  {
    if |ks| > 0 {
      SummaryPostingsSum(ks[1..], b, opening, k);
      var j := ks[0];
      var x := BalanceOf(b, j);
      var rest := SummaryPostings(ks[1..], b, opening);
      if x != 0.0 {
        PostingsSumAppend([Leg(j.0, x, j.1), Leg(opening, -x, j.1)], rest, k);
        PostingsSumPair(Leg(j.0, x, j.1), Leg(opening, -x, j.1), k);
      }
    }
  }

  /** The summarizing postings balance in every currency. */
  lemma {:induction false} SummaryPostingsBalanced(ks: seq<Key>, b: Balances, opening: AccountName, c: Currency)
    ensures CurrencySum(SummaryPostings(ks, b, opening), AnyAccount, c) == 0.0
    decreases |ks|
  {
    if |ks| > 0 {
      SummaryPostingsBalanced(ks[1..], b, opening, c);
      var j := ks[0];
      var x := BalanceOf(b, j);
      var rest := SummaryPostings(ks[1..], b, opening);
      if x != 0.0 {
        CurrencySumAppend([Leg(j.0, x, j.1), Leg(opening, -x, j.1)], rest, AnyAccount, c);
        CurrencySumPair(Leg(j.0, x, j.1), Leg(opening, -x, j.1), AnyAccount, c);
      }
    }
  }

  /** The entries that stand before the summarizing transaction: Opens and last prices before `date`, by date. */
  function Carried(entries: seq<Directive>, date: Date): (r: seq<Directive>)
    ensures Chronological(r)
    ensures forall i :: 0 <= i < |r| ==> (r[i].Open? || r[i].Price?) && Before(r[i].date, date)
  {
    var opens := OpenAtDate(entries, date);
    var prices := Prices.GetLastPriceEntries(entries, Some(date));
    CarriedKinds(opens, prices, date);
    SortKeeps(opens + prices);
    SortByDate(opens + prices)
  }

  /** Opens and prices dated before `date`, put together. */
  lemma CarriedKinds(opens: seq<Directive>, prices: seq<Directive>, date: Date)
    requires forall x :: x in opens ==> x.Open? && Before(x.date, date)
    requires forall i :: 0 <= i < |prices| ==> prices[i].Price? && Before(prices[i].date, date)
    ensures forall x :: x in opens + prices ==> (x.Open? || x.Price?) && Before(x.date, date)
  {
  }

  /** Sorting keeps every entry: each entry of the result is one of the input. */
  lemma SortKeeps(s: seq<Directive>)
    ensures forall i :: 0 <= i < |SortByDate(s)| ==> SortByDate(s)[i] in s
  {
    var r := SortByDate(s);
    forall i | 0 <= i < |r|
      ensures r[i] in s
    {
      assert r[i] in multiset(r);
    }
  }

  /** The summarizing transaction of the history before `date`, dated `date`. */
  function SummaryEntry(entries: seq<Directive>, date: Date, opening: AccountName): Directive
  {
    var before := Prefix(entries, date);
    Transaction(date, SummarizeFlag, None, "Opening balances", {}, {},
                SummaryPostings(KeysInOrder(before), Realize(before), opening))
  }

  /**
   `summarize`: the Opens in force and the last prices before `date`, one
   transaction dated `date` restoring every balance from the opening account, and
   the entries from `date` on unchanged.
   */
  function Summarize(entries: seq<Directive>, date: Date, opening: AccountName): (r: seq<Directive>)
    ensures SummaryLayout(r, entries, |Prefix(entries, date)|, SummaryEntry(entries, date, opening), date)
  {
    var n := |Prefix(entries, date)|;
    var head := Carried(entries, date);
    var s := SummaryEntry(entries, date, opening);
    ThreeSlices(head, s, entries, n, date);
    head + [s] + entries[n..]
  }

  /**
   The layout of a summarized ledger `r`: it ends with the entries from position
   `n` on, unchanged; just before them sits the summarizing transaction `s`; and
   everything before `s` is a non-transaction dated before `date`.
   */
  predicate SummaryLayout(r: seq<Directive>, entries: seq<Directive>, n: nat, s: Directive, date: Date)
  {
    && n <= |entries|
    && |r| > |entries| - n
    && r[|r| - (|entries| - n)..] == entries[n..]
    && r[|r| - (|entries| - n) - 1] == s
    && forall i :: 0 <= i < |r| - (|entries| - n) - 1 ==> !r[i].Transaction? && Before(r[i].date, date)
  }

  /** Where the parts of `head + [s] + entries[n..]` sit, for a head of non-transactions dated before `date`. */
  lemma ThreeSlices(head: seq<Directive>, s: Directive, entries: seq<Directive>, n: nat, date: Date)
    requires n <= |entries|
    requires forall i :: 0 <= i < |head| ==> (head[i].Open? || head[i].Price?) && Before(head[i].date, date)
    ensures SummaryLayout(head + [s] + entries[n..], entries, n, s, date)
  {
    var r := head + [s] + entries[n..];
    assert r[|r| - (|entries| - n)..] == entries[n..];
    assert forall i :: 0 <= i < |head| ==> r[i] == head[i];
  }

  /** The three parts of a summarized ledger. */
  lemma SummarizeParts(entries: seq<Directive>, date: Date, opening: AccountName)
    ensures Summarize(entries, date, opening) ==
      Carried(entries, date) + [SummaryEntry(entries, date, opening)] + entries[|Prefix(entries, date)|..]
  {
  }

  /**
   The balance of every (account, currency) after summarizing: unchanged, except
   that the opening account is off by what the history before `date` moved in
   that currency over all accounts, which is zero when it balances.
   */
  lemma SummarizeBalance(entries: seq<Directive>, date: Date, opening: AccountName, k: Key)
    ensures BalanceAfter(Summarize(entries, date, opening), k) ==
      BalanceAfter(entries, k) - (if k.0 == opening then CurrencyTotal(Prefix(entries, date), AnyAccount, k.1) else 0.0)
  {
    var before := Prefix(entries, date);
    var after := entries[|before|..];
    assert entries == before + after;
    BalanceAppend(before, after, k);
    SummarizeParts(entries, date, opening);
    ThreePartBalance(Carried(entries, date), SummaryEntry(entries, date, opening), after, k);
    SummaryEntrySum(entries, date, opening, k);
  }

  /** Entries without transactions before one entry and a rest move what those two move. */
  lemma ThreePartBalance(head: seq<Directive>, s: Directive, after: seq<Directive>, k: Key)
    requires forall i :: 0 <= i < |head| ==> !head[i].Transaction?
    ensures BalanceAfter(head + [s] + after, k) == EntrySum(s, k) + BalanceAfter(after, k)
  {
    BalanceAppend(head + [s], after, k);
    BalanceAppend(head, [s], k);
    BalanceNoTransactions(head, k);
    BalanceOne(s, k);
  }

  /**
   What the summarizing transaction posts to `k`: the balance the history before
   `date` left there, less, on the opening account, that history's total in the currency.
   */
  lemma SummaryEntrySum(entries: seq<Directive>, date: Date, opening: AccountName, k: Key)
    ensures EntrySum(SummaryEntry(entries, date, opening), k) ==
      BalanceAfter(Prefix(entries, date), k)
      - (if k.0 == opening then CurrencyTotal(Prefix(entries, date), AnyAccount, k.1) else 0.0)
  {
    var before := Prefix(entries, date);
    var ks := KeysInOrder(before);
    var b := Realize(before);
    assert SummaryEntry(entries, date, opening).postings == SummaryPostings(ks, b, opening);
    SummaryPostingsSum(ks, b, opening, k);
    KeySumDistinct(ks, b, k);
    RealizedTotal(before, AnyAccount, k.1);
  }

  /**
   Summarizing a ledger whose transactions balance keeps every realized balance:
   `compare_realizations` holds between the realizations before and after.
   */
  lemma SummarizePreserves(entries: seq<Directive>, date: Date, opening: AccountName)
    requires AllBalanced(entries)
    ensures CompareRealizations(Realize(entries), Realize(Summarize(entries, date, opening)))
  {
    var before := Prefix(entries, date);
    assert AllBalanced(before) by {
      forall i, c | 0 <= i < |before| && before[i].Transaction?
        ensures CurrencySum(before[i].postings, AnyAccount, c) == 0.0
      {
        assert before[i] == entries[i];
      }
    }
    forall k
      ensures BalanceAfter(entries, k) == BalanceAfter(Summarize(entries, date, opening), k)
    {
      SummarizeBalance(entries, date, opening, k);
      AllBalancedTotal(before, k.1);
    }
  }

  /** The summarizing transaction balances in every currency. */
  lemma SummaryBalanced(entries: seq<Directive>, date: Date, opening: AccountName, c: Currency)
    ensures CurrencySum(SummaryEntry(entries, date, opening).postings, AnyAccount, c) == 0.0
  {
    var before := Prefix(entries, date);
    SummaryPostingsBalanced(KeysInOrder(before), Realize(before), opening, c);
  }

  /**
   When the history before `date` leaves some other account with a nonzero
   balance, the summarizing transaction posts to the opening account.
   */
  lemma {:induction false} SummaryPostsToOpening(ks: seq<Key>, b: Balances, opening: AccountName, k: Key)
    requires k in ks && BalanceOf(b, k) != 0.0
    ensures exists i :: 0 <= i < |SummaryPostings(ks, b, opening)| && SummaryPostings(ks, b, opening)[i].account == opening
    decreases |ks|
  {
    var ps := SummaryPostings(ks, b, opening);
    if ks[0] == k {
      assert ps[1].account == opening;
    } else {
      SummaryPostsToOpening(ks[1..], b, opening, k);
      var rest := SummaryPostings(ks[1..], b, opening);
      var i :| 0 <= i < |rest| && rest[i].account == opening;
      assert ps[|ps| - |rest| + i] == rest[i];
    }
  }

  /**
   When the history before `date` leaves some account with a nonzero balance, the
   summarizing transaction posts to the opening account.
   */
  lemma SummaryEntryPostsToOpening(entries: seq<Directive>, date: Date, opening: AccountName, k: Key)
    requires BalanceAfter(Prefix(entries, date), k) != 0.0
    ensures var s := SummaryEntry(entries, date, opening);
      exists i :: 0 <= i < |s.postings| && s.postings[i].account == opening
  {
    var before := Prefix(entries, date);
    var ks := KeysInOrder(before);
    var b := Realize(before);
    assert BalanceOf(b, k) == BalanceAfter(before, k);
    assert k in b;
    assert k in ks;
    SummaryPostsToOpening(ks, b, opening, k);
    assert SummaryEntry(entries, date, opening).postings == SummaryPostings(ks, b, opening);
  }

  /** Two runs in date order, the first ending no later than the second starts, concatenate in date order. */
  lemma ChronologicalConcat(a: seq<Directive>, b: seq<Directive>, d: Date)
    requires Chronological(a) && Chronological(b)
    requires forall i :: 0 <= i < |a| ==> NotAfter(a[i].date, d)
    requires forall j :: 0 <= j < |b| ==> NotAfter(d, b[j].date)
    ensures Chronological(a + b)
  {
    forall i, j | 0 <= i < j < |a + b|
      ensures NotAfter((a + b)[i].date, (a + b)[j].date)
    {
      if j >= |a| && i < |a| {
        assert (a + b)[i] == a[i] && (a + b)[j] == b[j - |a|];
      }
    }
  }

  /** The entries from the first one dated on or after `date` on, of a ledger in date order, are in date order and no earlier than `date`. */
  lemma RestChronological(entries: seq<Directive>, date: Date)
    requires Chronological(entries)
    ensures var after := entries[|Prefix(entries, date)|..];
      Chronological(after) && forall i :: 0 <= i < |after| ==> NotAfter(date, after[i].date)
  {
    var n := |Prefix(entries, date)|;
    var after := entries[n..];
    forall i | 0 <= i < |after|
      ensures NotAfter(date, after[i].date)
    {
      assert after[i] == entries[n + i];
      assert NotAfter(entries[n].date, entries[n + i].date);
    }
    forall i, j | 0 <= i < j < |after|
      ensures NotAfter(after[i].date, after[j].date)
    {
      assert after[i] == entries[n + i] && after[j] == entries[n + j];
    }
  }

  /**
   Summarizing entries in date order gives entries in date order: the carried
   Opens and prices, the summarizing transaction, then the rest.
   */
  lemma SummarizeChronological(entries: seq<Directive>, date: Date, opening: AccountName)
    requires Chronological(entries)
    ensures Chronological(Summarize(entries, date, opening))
  {
    var after := entries[|Prefix(entries, date)|..];
    var s := SummaryEntry(entries, date, opening);
    var head := Carried(entries, date) + [s];
    AppendDated(Carried(entries, date), s, date);
    RestChronological(entries, date);
    ChronologicalConcat(head, after, date);
    SummarizeParts(entries, date, opening);
  }

  /** Entries in date order before `date`, then one entry dated `date`, are in date order and none later than `date`. */
  lemma AppendDated(c: seq<Directive>, s: Directive, date: Date)
    requires Chronological(c)
    requires forall i :: 0 <= i < |c| ==> Before(c[i].date, date)
    requires s.date == date
    ensures Chronological(c + [s])
    ensures forall i :: 0 <= i < |c + [s]| ==> NotAfter((c + [s])[i].date, date)
  {
    ChronologicalConcat(c, [s], date);
    forall i | 0 <= i < |c + [s]|
      ensures NotAfter((c + [s])[i].date, date)
    {
      if i < |c| {
        assert (c + [s])[i] == c[i];
      }
    }
  }
}
