/**
 Realization reduced to what the closing operations need: the local balance of
 every (account, currency) after a sequence of entries, and the comparison of
 two realizations.
 */
module Realization {
  import opened Data

  /** A local balance is kept per account and per currency. */
  type Key = (AccountName, Currency)

  type Balances = map<Key, real>

  function KeyOf(p: Posting): Key
  {
    (p.account, p.units.currency)
  }

  /** The local balance of `k`; an account that never held the currency holds zero of it. */
  function BalanceOf(b: Balances, k: Key): real
  {
    if k in b then b[k] else 0.0
  }

  /** The units the postings `ps` put on `k`. */
  function PostingsSum(ps: seq<Posting>, k: Key): real
    decreases |ps|
  {
    if |ps| == 0 then 0.0
    else (if KeyOf(ps[0]) == k then ps[0].units.number else 0.0) + PostingsSum(ps[1..], k)
  }

  /** The units a directive posts to `k`: only transactions carry postings. */
  function EntrySum(e: Directive, k: Key): real
  {
    if e.Transaction? then PostingsSum(e.postings, k) else 0.0
  }

  /** Reference balance: the units every transaction of `entries` posts to `k`. */
  function BalanceAfter(entries: seq<Directive>, k: Key): real
    decreases |entries|
  {
    if |entries| == 0 then 0.0 else EntrySum(entries[0], k) + BalanceAfter(entries[1..], k)
  }

  lemma {:induction false} BalanceAppend(a: seq<Directive>, b: seq<Directive>, k: Key)
    ensures BalanceAfter(a + b, k) == BalanceAfter(a, k) + BalanceAfter(b, k)
    decreases |a|
  {
    if |a| == 0 {
      assert a + b == b;
    } else {
      assert (a + b)[0] == a[0] && (a + b)[1..] == a[1..] + b;
      BalanceAppend(a[1..], b, k);
    }
  }

  lemma BalanceOne(e: Directive, k: Key)
    ensures BalanceAfter([e], k) == EntrySum(e, k)
  {
    assert [e][1..] == [];
  }

  lemma {:induction false} PostingsSumAppend(a: seq<Posting>, b: seq<Posting>, k: Key)
    ensures PostingsSum(a + b, k) == PostingsSum(a, k) + PostingsSum(b, k)
    decreases |a|
  {
    if |a| == 0 {
      assert a + b == b;
    } else {
      assert (a + b)[0] == a[0] && (a + b)[1..] == a[1..] + b;
      PostingsSumAppend(a[1..], b, k);
    }
  }

  lemma PostingsSumPair(p: Posting, q: Posting, k: Key)
    ensures PostingsSum([p, q], k) ==
      (if KeyOf(p) == k then p.units.number else 0.0) + (if KeyOf(q) == k then q.units.number else 0.0)
  {
    assert [p, q][1..] == [q] && [q][1..] == [];
    assert PostingsSum([q], k) == (if KeyOf(q) == k then q.units.number else 0.0) + PostingsSum([], k);
  }

  /** A sequence without transactions moves no balance. */
  lemma {:induction false} BalanceNoTransactions(entries: seq<Directive>, k: Key)
    requires forall i :: 0 <= i < |entries| ==> !entries[i].Transaction?
    ensures BalanceAfter(entries, k) == 0.0
    decreases |entries|
  {
    if |entries| > 0 {
      BalanceNoTransactions(entries[1..], k);
    }
  }

  /** Some posting of `ps` is on `k`. */
  predicate PostsTo(ps: seq<Posting>, k: Key)
  {
    exists i :: 0 <= i < |ps| && KeyOf(ps[i]) == k
  }

  /** Some transaction of `entries` posts to `k`. */
  predicate Posted(entries: seq<Directive>, k: Key)
  {
    exists i :: 0 <= i < |entries| && entries[i].Transaction? && PostsTo(entries[i].postings, k)
  }

  lemma PostedCons(entries: seq<Directive>, k: Key)
    requires |entries| > 0
    ensures Posted(entries, k) <==>
      (entries[0].Transaction? && PostsTo(entries[0].postings, k)) || Posted(entries[1..], k)
  {
    if Posted(entries, k) {
      var i :| 0 <= i < |entries| && entries[i].Transaction? && PostsTo(entries[i].postings, k);
      if i > 0 {
        assert entries[1..][i - 1] == entries[i];
      }
    }
    if Posted(entries[1..], k) {
      var i :| 0 <= i < |entries[1..]| && entries[1..][i].Transaction? && PostsTo(entries[1..][i].postings, k);
      assert entries[i + 1] == entries[1..][i];
    }
  }

  lemma PostsToCons(ps: seq<Posting>, k: Key)
    requires |ps| > 0
    ensures PostsTo(ps, k) <==> KeyOf(ps[0]) == k || PostsTo(ps[1..], k)
  {
    if PostsTo(ps, k) {
      var i :| 0 <= i < |ps| && KeyOf(ps[i]) == k;
      if i > 0 {
        assert ps[1..][i - 1] == ps[i];
      }
    }
    if PostsTo(ps[1..], k) {
      var i :| 0 <= i < |ps[1..]| && KeyOf(ps[1..][i]) == k;
      assert ps[i + 1] == ps[1..][i];
    }
  }

  /** Merge the units of one posting into the balance of its (account, currency). */
  function Post(b: Balances, p: Posting): Balances
  {
    b[KeyOf(p) := BalanceOf(b, KeyOf(p)) + p.units.number]
  }

  /** Merge the units of each posting into the balance of its (account, currency). */
  function PostAll(b: Balances, ps: seq<Posting>): (r: Balances)
    ensures forall k :: BalanceOf(r, k) == BalanceOf(b, k) + PostingsSum(ps, k)
    ensures forall k :: k in r <==> k in b || PostsTo(ps, k)
    decreases |ps|
  {
    if |ps| == 0 then b
    else
      var k0 := KeyOf(ps[0]);
      var r := PostAll(Post(b, ps[0]), ps[1..]);
      assert forall k :: PostsTo(ps, k) <==> k == k0 || PostsTo(ps[1..], k) by {
        forall k
          ensures PostsTo(ps, k) <==> k == k0 || PostsTo(ps[1..], k)
        {
          PostsToCons(ps, k);
        }
      }
      r
  }

  function RealizeFrom(b: Balances, entries: seq<Directive>): (r: Balances)
    ensures forall k :: BalanceOf(r, k) == BalanceOf(b, k) + BalanceAfter(entries, k)
    ensures forall k :: k in r <==> k in b || Posted(entries, k)
    decreases |entries|
  {
    if |entries| == 0 then b
    else
      var e := entries[0];
      var b' := if e.Transaction? then PostAll(b, e.postings) else b;
      var r := RealizeFrom(b', entries[1..]);
      assert forall k :: Posted(entries, k) <==>
        (e.Transaction? && PostsTo(e.postings, k)) || Posted(entries[1..], k) by {
        forall k
          ensures Posted(entries, k) <==> (e.Transaction? && PostsTo(e.postings, k)) || Posted(entries[1..], k)
        {
          PostedCons(entries, k);
        }
      }
      r
  }

  /**
   `realize`, reduced to local balances: every (account, currency) some transaction
   posts to, holding the sum of the units posted to it.
   */
  function Realize(entries: seq<Directive>): (r: Balances)
    ensures forall k :: BalanceOf(r, k) == BalanceAfter(entries, k)
    ensures forall k :: k in r <==> Posted(entries, k)
  {
    RealizeFrom(map[], entries)
  }

  /**
   `compare_realizations`: every account present in either realization has the
   same local balance in both, an absent account counting as empty.
   */
  function CompareRealizations(a: Balances, b: Balances): (r: bool)
    ensures r <==> forall k :: BalanceOf(a, k) == BalanceOf(b, k)
  {
    forall k | k in a.Keys + b.Keys :: BalanceOf(a, k) == BalanceOf(b, k)
  }

  /** Two entry sequences whose reference balances agree everywhere realize to equal realizations. */
  lemma SameBalancesCompare(x: seq<Directive>, y: seq<Directive>)
    requires forall k :: BalanceAfter(x, k) == BalanceAfter(y, k)
    ensures CompareRealizations(Realize(x), Realize(y))
  {
  }

  // ---------------------------------------------------------------------
  // Keys in order of first posting, and per-currency totals.

  predicate Distinct(s: seq<Key>)
  {
    forall i, j :: 0 <= i < j < |s| ==> s[i] != s[j]
  }

  /** Append `k` unless `ks` already holds it. */
  function NoteKey(ks: seq<Key>, k: Key): seq<Key>
  {
    if k in ks then ks else ks + [k]
  }

  /** Append the keys the postings touch that `ks` does not hold yet, in posting order. */
  function NoteKeys(ks: seq<Key>, ps: seq<Posting>): (r: seq<Key>)
    requires Distinct(ks)
    ensures Distinct(r)
    ensures forall k :: k in r <==> k in ks || PostsTo(ps, k)
    ensures |ks| <= |r| && r[..|ks|] == ks
    decreases |ps|
  {
    if |ps| == 0 then ks
    else
      var k0 := KeyOf(ps[0]);
      var ks' := NoteKey(ks, k0);
      var r := NoteKeys(ks', ps[1..]);
      assert forall k :: PostsTo(ps, k) <==> k == k0 || PostsTo(ps[1..], k) by {
        forall k
          ensures PostsTo(ps, k) <==> k == k0 || PostsTo(ps[1..], k)
        {
          PostsToCons(ps, k);
        }
      }
      assert r[..|ks|] == r[..|ks'|][..|ks|];
      r
  }

  function KeysFrom(ks: seq<Key>, entries: seq<Directive>): (r: seq<Key>)
    requires Distinct(ks)
    ensures Distinct(r)
    ensures forall k :: k in r <==> k in ks || Posted(entries, k)
    decreases |entries|
  {
    if |entries| == 0 then ks
    else
      var e := entries[0];
      var ks' := if e.Transaction? then NoteKeys(ks, e.postings) else ks;
      var r := KeysFrom(ks', entries[1..]);
      assert forall k :: Posted(entries, k) <==>
        (e.Transaction? && PostsTo(e.postings, k)) || Posted(entries[1..], k) by {
        forall k
          ensures Posted(entries, k) <==> (e.Transaction? && PostsTo(e.postings, k)) || Posted(entries[1..], k)
        {
          PostedCons(entries, k);
        }
      }
      r
  }

  /** The (account, currency) keys of a realization, each once, in order of first posting. */
  function KeysInOrder(entries: seq<Directive>): (r: seq<Key>)
    ensures Distinct(r)
    ensures forall k :: k in r <==> k in Realize(entries)
  {
    KeysFrom([], entries)
  }

  /** The balance `ks` records for `k`: summed over the positions holding `k`. */
  function KeySum(ks: seq<Key>, b: Balances, k: Key): real
    decreases |ks|
  {
    if |ks| == 0 then 0.0 else (if ks[0] == k then BalanceOf(b, k) else 0.0) + KeySum(ks[1..], b, k)
  }

  /** Over distinct keys, the key's balance when listed and zero otherwise. */
  lemma {:induction false} KeySumDistinct(ks: seq<Key>, b: Balances, k: Key)
    requires Distinct(ks)
    ensures KeySum(ks, b, k) == if k in ks then BalanceOf(b, k) else 0.0
    decreases |ks|
  {
    if |ks| > 0 {
      KeySumDistinct(ks[1..], b, k);
      if ks[0] == k {
        assert k !in ks[1..];
      }
    }
  }

  /** Every account: the selector of a total over the whole ledger. */
  function AnyAccount(a: AccountName): bool
  {
    true
  }

  /** The key is in currency `c`, on an account `pred` selects. */
  predicate Selected(k: Key, pred: AccountName -> bool, c: Currency)
  {
    pred(k.0) && k.1 == c
  }

  /** The total balance in currency `c` of the keys of `ks` on accounts `pred` selects. */
  function TotalIn(ks: seq<Key>, b: Balances, pred: AccountName -> bool, c: Currency): real
    decreases |ks|
  {
    if |ks| == 0 then 0.0
    else (if Selected(ks[0], pred, c) then BalanceOf(b, ks[0]) else 0.0) + TotalIn(ks[1..], b, pred, c)
  }

  /** The units in currency `c` the postings `ps` move on the accounts `pred` selects, together. */
  function CurrencySum(ps: seq<Posting>, pred: AccountName -> bool, c: Currency): real
    decreases |ps|
  {
    if |ps| == 0 then 0.0
    else (if Selected(KeyOf(ps[0]), pred, c) then ps[0].units.number else 0.0) + CurrencySum(ps[1..], pred, c)
  }

  /** The units in currency `c` all transactions of `entries` move on the accounts `pred` selects, together. */
  function CurrencyTotal(entries: seq<Directive>, pred: AccountName -> bool, c: Currency): real
    decreases |entries|
  {
    if |entries| == 0 then 0.0
    else
      (if entries[0].Transaction? then CurrencySum(entries[0].postings, pred, c) else 0.0)
      + CurrencyTotal(entries[1..], pred, c)
  }

  lemma {:induction false} CurrencyTotalAppend(a: seq<Directive>, b: seq<Directive>, pred: AccountName -> bool, c: Currency)
    ensures CurrencyTotal(a + b, pred, c) == CurrencyTotal(a, pred, c) + CurrencyTotal(b, pred, c)
    decreases |a|
  {
    if |a| == 0 {
      assert a + b == b;
    } else {
      assert (a + b)[0] == a[0] && (a + b)[1..] == a[1..] + b;
      CurrencyTotalAppend(a[1..], b, pred, c);
    }
  }

  lemma {:induction false} CurrencySumAppend(a: seq<Posting>, b: seq<Posting>, pred: AccountName -> bool, c: Currency)
    ensures CurrencySum(a + b, pred, c) == CurrencySum(a, pred, c) + CurrencySum(b, pred, c)
    decreases |a|
  {
    if |a| == 0 {
      assert a + b == b;
    } else {
      assert (a + b)[0] == a[0] && (a + b)[1..] == a[1..] + b;
      CurrencySumAppend(a[1..], b, pred, c);
    }
  }

  lemma CurrencySumPair(p: Posting, q: Posting, pred: AccountName -> bool, c: Currency)
    ensures CurrencySum([p, q], pred, c) ==
      (if Selected(KeyOf(p), pred, c) then p.units.number else 0.0)
      + (if Selected(KeyOf(q), pred, c) then q.units.number else 0.0)
  {
    assert [p, q][1..] == [q] && [q][1..] == [];
    assert CurrencySum([q], pred, c) == (if Selected(KeyOf(q), pred, c) then q.units.number else 0.0) + CurrencySum([], pred, c);
  }

  /** Every transaction of `entries` balances in each currency on its own: double entry without conversions. */
  ghost predicate AllBalanced(entries: seq<Directive>)
  {
    forall i, c :: 0 <= i < |entries| && entries[i].Transaction? ==> CurrencySum(entries[i].postings, AnyAccount, c) == 0.0
  }

  lemma {:induction false} AllBalancedTotal(entries: seq<Directive>, c: Currency)
    requires AllBalanced(entries)
    ensures CurrencyTotal(entries, AnyAccount, c) == 0.0
    decreases |entries|
  {
    if |entries| > 0 {
      assert AllBalanced(entries[1..]) by {
        forall i, c' | 0 <= i < |entries[1..]| && entries[1..][i].Transaction?
          ensures CurrencySum(entries[1..][i].postings, AnyAccount, c') == 0.0
        {
          assert entries[1..][i] == entries[i + 1];
        }
      }
      AllBalancedTotal(entries[1..], c);
    }
  }

  lemma {:induction false} TotalInAppendOne(ks: seq<Key>, k: Key, b: Balances, pred: AccountName -> bool, c: Currency)
    ensures TotalIn(ks + [k], b, pred, c) ==
      TotalIn(ks, b, pred, c) + (if Selected(k, pred, c) then BalanceOf(b, k) else 0.0)
    decreases |ks|
  {
    if |ks| > 0 {
      assert (ks + [k])[1..] == ks[1..] + [k];
      TotalInAppendOne(ks[1..], k, b, pred, c);
    }
  }

  /** Changing the balance of one listed key moves the total of its selection by the change. */
  lemma {:induction false} TotalInUpdate(ks: seq<Key>, b: Balances, k: Key, v: real, pred: AccountName -> bool, c: Currency)
    requires Distinct(ks)
    ensures TotalIn(ks, b[k := v], pred, c) ==
      TotalIn(ks, b, pred, c) + (if k in ks && Selected(k, pred, c) then v - BalanceOf(b, k) else 0.0)
    decreases |ks|
  {
    if |ks| > 0 {
      TotalInUpdate(ks[1..], b, k, v, pred, c);
      if ks[0] == k {
        assert k !in ks[1..];
      }
    }
  }

  lemma DistinctAppend(ks: seq<Key>, k: Key)
    requires Distinct(ks) && k !in ks
    ensures Distinct(ks + [k])
  {
    forall i, j | 0 <= i < j < |ks + [k]|
      ensures (ks + [k])[i] != (ks + [k])[j]
    {
      if j == |ks| {
        assert ks[i] in ks;
      }
    }
  }

  /** Noting one more posting: the listed keys' total moves by the posting's units when selected. */
  lemma NoteOneTotal(ks: seq<Key>, b: Balances, p: Posting, pred: AccountName -> bool, c: Currency)
    requires Distinct(ks)
    requires forall k :: k in b ==> k in ks
    ensures TotalIn(NoteKey(ks, KeyOf(p)), Post(b, p), pred, c)
        == TotalIn(ks, b, pred, c) + (if Selected(KeyOf(p), pred, c) then p.units.number else 0.0)
  {
    var k0 := KeyOf(p);
    var ks' := NoteKey(ks, k0);
    if k0 !in ks {
      TotalInAppendOne(ks, k0, b, pred, c);
      DistinctAppend(ks, k0);
    }
    TotalInUpdate(ks', b, k0, BalanceOf(b, k0) + p.units.number, pred, c);
  }

  lemma {:induction false} NoteKeysTotal(ks: seq<Key>, b: Balances, ps: seq<Posting>, pred: AccountName -> bool, c: Currency)
    requires Distinct(ks)
    requires forall k :: k in b ==> k in ks
    ensures TotalIn(NoteKeys(ks, ps), PostAll(b, ps), pred, c) == TotalIn(ks, b, pred, c) + CurrencySum(ps, pred, c)
    decreases |ps|
  {
    if |ps| > 0 {
      var k0 := KeyOf(ps[0]);
      var ks' := NoteKey(ks, k0);
      var b' := Post(b, ps[0]);
      if k0 !in ks {
        DistinctAppend(ks, k0);
      }
      NoteOneTotal(ks, b, ps[0], pred, c);
      NoteKeysTotal(ks', b', ps[1..], pred, c);
    }
  }

  lemma {:induction false} KeysFromTotal(ks: seq<Key>, b: Balances, entries: seq<Directive>, pred: AccountName -> bool, c: Currency)
    requires Distinct(ks)
    requires forall k :: k in b ==> k in ks
    ensures TotalIn(KeysFrom(ks, entries), RealizeFrom(b, entries), pred, c)
         == TotalIn(ks, b, pred, c) + CurrencyTotal(entries, pred, c)
    decreases |entries|
  {
    if |entries| > 0 {
      var e := entries[0];
      if e.Transaction? {
        NoteKeysTotal(ks, b, e.postings, pred, c);
        KeysFromTotal(NoteKeys(ks, e.postings), PostAll(b, e.postings), entries[1..], pred, c);
      } else {
        KeysFromTotal(ks, b, entries[1..], pred, c);
      }
    }
  }

  /**
   Summed over its keys, a realization holds, on the selected accounts and in each
   currency, exactly what the transactions posted there: zero over all accounts of
   a balanced ledger.
   */
  lemma RealizedTotal(entries: seq<Directive>, pred: AccountName -> bool, c: Currency)
    ensures TotalIn(KeysInOrder(entries), Realize(entries), pred, c) == CurrencyTotal(entries, pred, c)
  {
    KeysFromTotal([], map[], entries, pred, c);
  }
}
