/**
 The implicit-prices plugin: after every transaction, a Price directive for each
 posting that carries a price, or a cost on a lot it does not reduce, each price
 synthesized at most once per (date, currency, number, quote currency).
 */
module ImplicitPrices {
  import opened Wrappers
  import opened Dates
  import opened Data

  /** What adding a position to an account's inventory did to it. */
  datatype Booking = Created | Augmented | Reduced

  /**
   The inventory's booking, as a parameter: given the postings already added to
   the account, in order, what adding one more does.
   */
  type Booker = (seq<Posting>, Posting) -> Booking

  /** The postings added so far to each account's inventory. */
  type Held = map<AccountName, seq<Posting>>

  function HeldIn(h: Held, a: AccountName): seq<Posting>
  {
    if a in h then h[a] else []
  }

  /** Add the posting's position to its account's inventory. */
  function Hold(h: Held, p: Posting): (r: Held)
    ensures HeldIn(r, p.account) == HeldIn(h, p.account) + [p]
    ensures forall a :: a != p.account ==> HeldIn(r, a) == HeldIn(h, a)
  {
    h[p.account := HeldIn(h, p.account) + [p]]
  }

  /** The de-duplication key of a price: its date, currency, number and quote currency. */
  type PriceKey = (Date, Currency, real, Currency)

  function KeyOf(e: Directive): (k: PriceKey)
    requires e.Price?
    ensures Price(k.0, k.1, Amount(k.2, k.3)) == e
  {
    (e.date, e.currency, e.amount.number, e.amount.currency)
  }

  /** The price a posting implies on `date`: its price, else its cost unless it reduced a lot. */
  function Implied(date: Date, p: Posting, b: Booking): (r: Option<Directive>)
    ensures r.Some? <==> p.price.Some? || (p.cost.Some? && b != Reduced)
    ensures r.Some? ==> r.value.Price? && r.value.date == date && r.value.currency == p.units.currency
    ensures r.Some? ==> r.value.amount == if p.price.Some? then p.price.value else p.cost.value
  {
    if p.price.Some? then Some(Price(date, p.units.currency, p.price.value))
    else if p.cost.Some? && b != Reduced then Some(Price(date, p.units.currency, p.cost.value))
    else None
  }

  /** A posting's price does not depend on how it books; only a cost-only posting's does. */
  lemma PriceIgnoresBooking(date: Date, p: Posting, b1: Booking, b2: Booking)
    requires p.price.Some? || (b1 != Reduced && b2 != Reduced)
    ensures Implied(date, p, b1) == Implied(date, p, b2)
  {
  }

  /** The keys of the prices among `c`. */
  function KeysOf(c: seq<Directive>): set<PriceKey>
    decreases |c|
  {
    if |c| == 0 then {}
    else (if c[0].Price? then {KeyOf(c[0])} else {}) + KeysOf(c[1..])
  }

  lemma {:induction false} KeysOfAppend(a: seq<Directive>, b: seq<Directive>)
    ensures KeysOf(a + b) == KeysOf(a) + KeysOf(b)
    decreases |a|
  {
    if |a| == 0 {
      assert a + b == b;
    } else {
      assert (a + b)[0] == a[0] && (a + b)[1..] == a[1..] + b;
      KeysOfAppend(a[1..], b);
    }
  }

  lemma {:induction false} KeysOfMember(c: seq<Directive>, k: PriceKey)
    requires forall i :: 0 <= i < |c| ==> c[i].Price?
    ensures k in KeysOf(c) <==> exists i :: 0 <= i < |c| && KeyOf(c[i]) == k
    decreases |c|
  {
    if |c| > 0 {
      KeysOfMember(c[1..], k);
      if exists i :: 0 <= i < |c| && KeyOf(c[i]) == k {
        var i :| 0 <= i < |c| && KeyOf(c[i]) == k;
        if i > 0 {
          assert c[1..][i - 1] == c[i];
        }
      }
      if k in KeysOf(c[1..]) {
        var i :| 0 <= i < |c[1..]| && KeyOf(c[1..][i]) == k;
        assert c[i + 1] == c[1..][i];
      }
    }
  }

  /** Prices whose keys are pairwise different. */
  predicate DistinctKeys(c: seq<Directive>)
  {
    forall i, j :: 0 <= i < j < |c| && c[i].Price? && c[j].Price? ==> KeyOf(c[i]) != KeyOf(c[j])
  }

  // ---------------------------------------------------------------------
  // The reference: every implied price, then the first of each key.

  /** The prices the postings imply in posting order, and the inventories after them. */
  function Candidates(date: Date, ps: seq<Posting>, h: Held, book: Booker): (r: (seq<Directive>, Held))
    ensures |r.0| <= |ps|
    ensures forall i :: 0 <= i < |r.0| ==> r.0[i].Price? && r.0[i].date == date
    decreases |ps|
  {
    if |ps| == 0 then ([], h)
    else
      var p := ps[0];
      var rest := Candidates(date, ps[1..], Hold(h, p), book);
      match Implied(date, p, book(HeldIn(h, p.account), p))
      case Some(x) => ([x] + rest.0, rest.1)
      case None => rest
  }

  /** Every price the transactions of `entries` imply, in order. */
  function LedgerCandidates(entries: seq<Directive>, h: Held, book: Booker): (r: seq<Directive>)
    ensures forall i :: 0 <= i < |r| ==> r[i].Price?
    decreases |entries|
  {
    if |entries| == 0 then []
    else if entries[0].Transaction? then
      var c := Candidates(entries[0].date, entries[0].postings, h, book);
      c.0 + LedgerCandidates(entries[1..], c.1, book)
    else LedgerCandidates(entries[1..], h, book)
  }

  /** Keep the first price of every key not in `seen`, in order. */
  function Dedup(c: seq<Directive>, seen: set<PriceKey>): (r: seq<Directive>)
    requires forall i :: 0 <= i < |c| ==> c[i].Price?
    ensures forall i :: 0 <= i < |r| ==> r[i].Price?
    decreases |c|
  {
    if |c| == 0 then []
    else
      var k := KeyOf(c[0]);
      if k in seen then Dedup(c[1..], seen) else [c[0]] + Dedup(c[1..], seen + {k})
  }

  /**
   What de-duplication keeps: prices of `c` whose keys are not in `seen`, pairwise
   different, covering every key of `c` outside `seen`.
   */
  lemma {:induction false} DedupSpec(c: seq<Directive>, seen: set<PriceKey>)
    requires forall i :: 0 <= i < |c| ==> c[i].Price?
    ensures var r := Dedup(c, seen);
      && (forall i :: 0 <= i < |r| ==> r[i] in c && KeyOf(r[i]) !in seen)
      && DistinctKeys(r)
      && KeysOf(r) == KeysOf(c) - seen
    decreases |c|
  {
    if |c| > 0 {
      var k := KeyOf(c[0]);
      var r := Dedup(c, seen);
      if k in seen {
        DedupSpec(c[1..], seen);
        assert r == Dedup(c[1..], seen);
        assert KeysOf(c) == {k} + KeysOf(c[1..]);
        forall i | 0 <= i < |r|
          ensures r[i] in c
        {
          assert r[i] in c[1..];
        }
      } else {
        DedupSpec(c[1..], seen + {k});
        var rest := Dedup(c[1..], seen + {k});
        assert r == [c[0]] + rest;
        assert r[1..] == rest;
        assert KeysOf(c) == {k} + KeysOf(c[1..]);
        assert KeysOf(r) == {k} + KeysOf(rest);
        forall i | 0 <= i < |r|
          ensures r[i] in c && KeyOf(r[i]) !in seen
        {
          if i > 0 {
            assert r[i] == rest[i - 1];
            assert rest[i - 1] in c[1..];
          }
        }
        forall i, j | 0 <= i < j < |r|
          ensures KeyOf(r[i]) != KeyOf(r[j])
        {
          assert r[j] == rest[j - 1];
          if i > 0 {
            assert r[i] == rest[i - 1];
          }
        }
      }
    }
  }

  /** De-duplicating a concatenation: the second part against the keys of the first. */
  lemma {:induction false} DedupAppend(a: seq<Directive>, b: seq<Directive>, seen: set<PriceKey>)
    requires forall i :: 0 <= i < |a| ==> a[i].Price?
    requires forall i :: 0 <= i < |b| ==> b[i].Price?
    ensures Dedup(a + b, seen) == Dedup(a, seen) + Dedup(b, seen + KeysOf(a))
    decreases |a|
  {
    if |a| == 0 {
      assert a + b == b;
      assert seen + KeysOf(a) == seen;
    } else {
      var k := KeyOf(a[0]);
      assert (a + b)[0] == a[0] && (a + b)[1..] == a[1..] + b;
      if k in seen {
        assert Dedup(a + b, seen) == Dedup((a + b)[1..], seen);
        assert Dedup(a, seen) == Dedup(a[1..], seen);
        DedupAppend(a[1..], b, seen);
        assert KeysOf(a) == {k} + KeysOf(a[1..]);
        assert seen + KeysOf(a) == seen + KeysOf(a[1..]);
      } else {
        assert Dedup(a + b, seen) == [a[0]] + Dedup((a + b)[1..], seen + {k});
        assert Dedup(a, seen) == [a[0]] + Dedup(a[1..], seen + {k});
        DedupAppend(a[1..], b, seen + {k});
        assert KeysOf(a) == {k} + KeysOf(a[1..]);
        assert seen + KeysOf(a) == seen + {k} + KeysOf(a[1..]);
        assert Dedup(a, seen) + Dedup(b, seen + KeysOf(a))
          == [a[0]] + (Dedup(a[1..], seen + {k}) + Dedup(b, seen + {k} + KeysOf(a[1..])));
      }
    }
  }

  // ---------------------------------------------------------------------
  // The plugin's single pass.

  /**
   One pass over a transaction's postings: book each, and emit the price it
   implies unless its key was already emitted.
   */
  function PostingsPass(date: Date, ps: seq<Posting>, h: Held, seen: set<PriceKey>, book: Booker)
    : (r: (seq<Directive>, Held, set<PriceKey>))
    ensures |r.0| <= |ps|
    ensures forall i :: 0 <= i < |r.0| ==> r.0[i].Price? && r.0[i].date == date && KeyOf(r.0[i]) !in seen
    ensures DistinctKeys(r.0)
    ensures r.2 == seen + KeysOf(r.0)
    decreases |ps|
  {
    if |ps| == 0 then ([], h, seen)
    else
      var p := ps[0];
      var b := book(HeldIn(h, p.account), p);
      var h' := Hold(h, p);
      match Implied(date, p, b)
      case Some(x) =>
        if KeyOf(x) in seen then PostingsPass(date, ps[1..], h', seen, book)
        else
          var rest := PostingsPass(date, ps[1..], h', seen + {KeyOf(x)}, book);
          var out := [x] + rest.0;
          assert out[0] == x && out[1..] == rest.0;
          assert KeysOf(out) == {KeyOf(x)} + KeysOf(rest.0);
          (out, rest.1, rest.2)
      case None => PostingsPass(date, ps[1..], h', seen, book)
  }

  /** The single pass emits the first occurrence of every implied price's key. */
  lemma {:induction false} PostingsPassIsDedup(date: Date, ps: seq<Posting>, h: Held, seen: set<PriceKey>, book: Booker)
    ensures var c := Candidates(date, ps, h, book);
      PostingsPass(date, ps, h, seen, book) == (Dedup(c.0, seen), c.1, seen + KeysOf(c.0))
    decreases |ps|
  {
    if |ps| > 0 {
      var p := ps[0];
      var h' := Hold(h, p);
      match Implied(date, p, book(HeldIn(h, p.account), p))
      case Some(x) =>
        var c := Candidates(date, ps[1..], h', book);
        var cs := [x] + c.0;
        assert Candidates(date, ps, h, book) == (cs, c.1);
        assert cs[0] == x && cs[1..] == c.0;
        assert KeysOf(cs) == {KeyOf(x)} + KeysOf(c.0);
        if KeyOf(x) in seen {
          PostingsPassIsDedup(date, ps[1..], h', seen, book);
          assert Dedup(cs, seen) == Dedup(c.0, seen);
          assert seen + KeysOf(cs) == seen + KeysOf(c.0);
        } else {
          PostingsPassIsDedup(date, ps[1..], h', seen + {KeyOf(x)}, book);
          assert Dedup(cs, seen) == [x] + Dedup(c.0, seen + {KeyOf(x)});
          assert seen + KeysOf(cs) == seen + {KeyOf(x)} + KeysOf(c.0);
        }
      case None =>
        PostingsPassIsDedup(date, ps[1..], h', seen, book);
        assert Candidates(date, ps, h, book) == Candidates(date, ps[1..], h', book);
    } else {
      assert seen + KeysOf([]) == seen;
    }
  }

  /** An input entry and the prices synthesized right after it. */
  datatype Block = Block(entry: Directive, added: seq<Directive>)

  /** The pass over the entries, one block per entry. */
  function Blocks(entries: seq<Directive>, h: Held, seen: set<PriceKey>, book: Booker): (r: seq<Block>)
    ensures |r| == |entries|
    ensures forall i :: 0 <= i < |r| ==> r[i].entry == entries[i]
    decreases |entries|
  {
    if |entries| == 0 then []
    else if entries[0].Transaction? then
      var e := entries[0];
      var step := PostingsPass(e.date, e.postings, h, seen, book);
      [Block(e, step.0)] + Blocks(entries[1..], step.1, step.2, book)
    else [Block(entries[0], [])] + Blocks(entries[1..], h, seen, book)
  }

  /** The entries and their synthesized prices, in order. */
  function Flatten(bs: seq<Block>): (r: seq<Directive>)
    decreases |bs|
  {
    if |bs| == 0 then [] else [bs[0].entry] + bs[0].added + Flatten(bs[1..])
  }

  /** All synthesized prices, in order. */
  function Added(bs: seq<Block>): seq<Directive>
    decreases |bs|
  {
    if |bs| == 0 then [] else bs[0].added + Added(bs[1..])
  }

  /** The errors the plugin reports. */
  datatype ImplicitPriceError = ImplicitPriceError(message: string, entry: Directive)

  /** `add_implicit_prices`: every entry, each transaction followed by the prices it newly implies. */
  function AddImplicitPrices(entries: seq<Directive>, book: Booker): (r: (seq<Directive>, seq<ImplicitPriceError>))
    ensures |r.0| >= |entries|
    ensures r.1 == []
  {
    var bs := Blocks(entries, map[], {}, book);
    FlattenLength(bs);
    (Flatten(bs), [])
  }

  // ---------------------------------------------------------------------
  // Properties.

  lemma {:induction false} FlattenLength(bs: seq<Block>)
    ensures |Flatten(bs)| == |bs| + |Added(bs)|
    decreases |bs|
  {
    if |bs| > 0 {
      FlattenLength(bs[1..]);
    }
  }

  /**
   The synthesized prices are exactly the first occurrence of every key among the
   prices the ledger implies, in order.
   */
  lemma {:induction false} AddedIsDedup(entries: seq<Directive>, h: Held, seen: set<PriceKey>, book: Booker)
    ensures Added(Blocks(entries, h, seen, book)) == Dedup(LedgerCandidates(entries, h, book), seen)
    decreases |entries|
  {
    if |entries| > 0 {
      var bs := Blocks(entries, h, seen, book);
      var e := entries[0];
      if e.Transaction? {
        var c := Candidates(e.date, e.postings, h, book);
        PostingsPassIsDedup(e.date, e.postings, h, seen, book);
        AddedIsDedup(entries[1..], c.1, seen + KeysOf(c.0), book);
        DedupAppend(c.0, LedgerCandidates(entries[1..], c.1, book), seen);
      } else {
        AddedIsDedup(entries[1..], h, seen, book);
      }
    }
  }

  /**
   Every price the ledger's transactions imply is synthesized, exactly once: the
   synthesized prices are those, with pairwise different keys.
   */
  lemma ImpliedPricesOnce(entries: seq<Directive>, book: Booker)
    ensures var added := Added(Blocks(entries, map[], {}, book));
      && DistinctKeys(added)
      && forall x :: x in added <==> x in LedgerCandidates(entries, map[], book)
  {
    var c := LedgerCandidates(entries, map[], book);
    var added := Added(Blocks(entries, map[], {}, book));
    AddedIsDedup(entries, map[], {}, book);
    DedupSpec(c, {});
    forall x
      ensures x in added <==> x in c
    {
      if x in c {
        var i :| 0 <= i < |c| && c[i] == x;
        KeysOfMember(c, KeyOf(x));
        KeysOfMember(added, KeyOf(x));
        var j :| 0 <= j < |added| && KeyOf(added[j]) == KeyOf(x);
        assert added[j] == x;
      }
    }
  }

  /** Where each entry lands in the output: after the one before it and the prices added for that one. */
  function Positions(bs: seq<Block>): (r: seq<nat>)
    ensures |r| == |bs|
    ensures |r| > 0 ==> r[0] == 0
    decreases |bs|
  {
    if |bs| == 0 then []
    else
      var rest := Positions(bs[1..]);
      var n := 1 + |bs[0].added|;
      [0] + seq(|rest|, j requires 0 <= j < |rest| => rest[j] + n)
  }

  /** A later entry's position is its position among the later blocks, shifted past the first block. */
  lemma PositionsStep(bs: seq<Block>, i: nat)
    requires 0 < i < |bs|
    ensures Positions(bs)[i] == Positions(bs[1..])[i - 1] + 1 + |bs[0].added|
  {
  }

  /**
   The entry of block `i` sits at its position in the output, followed directly by
   the prices added for it; the next entry comes right after those.
   */
  lemma {:induction false} PositionAt(bs: seq<Block>, i: nat)
    requires i < |bs|
    ensures var r := Positions(bs);
      && r[i] + 1 + |bs[i].added| <= |Flatten(bs)|
      && Flatten(bs)[r[i]] == bs[i].entry
      && Flatten(bs)[r[i] + 1..r[i] + 1 + |bs[i].added|] == bs[i].added
      && (i + 1 < |bs| ==> r[i + 1] == r[i] + 1 + |bs[i].added|)
    decreases |bs|
  {
    if i == 0 {
      PlacedFirst(bs);
    } else {
      var b := bs[1..];
      PositionAt(b, i - 1);
      PositionsStep(bs, i);
      PlacedLater(bs, i, Positions(b)[i - 1], Positions(bs)[i]);
    }
    if i + 1 < |bs| {
      PositionsNext(bs, i);
    }
  }

  /** The next entry's position is past this entry and the prices added for it. */
  lemma {:induction false} PositionsNext(bs: seq<Block>, i: nat)
    requires i + 1 < |bs|
    ensures Positions(bs)[i + 1] == Positions(bs)[i] + 1 + |bs[i].added|
    decreases |bs|
  {
    PositionsStep(bs, i + 1);
    if i > 0 {
      PositionsNext(bs[1..], i - 1);
      PositionsStep(bs, i);
      assert bs[1..][i - 1] == bs[i];
    }
  }

  /** The first entry opens the output, followed directly by its added prices. */
  lemma PlacedFirst(bs: seq<Block>)
    requires 0 < |bs|
    ensures 1 + |bs[0].added| <= |Flatten(bs)|
    ensures Flatten(bs)[0] == bs[0].entry
    ensures Flatten(bs)[1..1 + |bs[0].added|] == bs[0].added
  {
    var pre := [bs[0].entry] + bs[0].added;
    assert Flatten(bs) == pre + Flatten(bs[1..]);
    assert (pre + Flatten(bs[1..]))[1..|pre|] == bs[0].added;
  }

  /** Where a later entry sits among the later blocks, shifted past the first block to `pos`. */
  lemma PlacedLater(bs: seq<Block>, i: nat, a: nat, pos: nat)
    requires 0 < i < |bs|
    requires var x := bs[1..][i - 1];
      && a + 1 + |x.added| <= |Flatten(bs[1..])|
      && Flatten(bs[1..])[a] == x.entry
      && Flatten(bs[1..])[a + 1..a + 1 + |x.added|] == x.added
    requires pos == a + 1 + |bs[0].added|
    ensures pos + 1 + |bs[i].added| <= |Flatten(bs)|
    ensures Flatten(bs)[pos] == bs[i].entry
    ensures Flatten(bs)[pos + 1..pos + 1 + |bs[i].added|] == bs[i].added
  {
    assert bs[1..][i - 1] == bs[i];
    var pre := [bs[0].entry] + bs[0].added;
    var tail := Flatten(bs[1..]);
    assert Flatten(bs) == pre + tail;
    ShiftSlice(pre, tail, a, a + 1 + |bs[i].added|);
    ShiftSlice(pre, tail, a + 1, a + 1 + |bs[i].added|);
  }

  /** Indexing past a prefix of length `|p|` is indexing into what follows it. */
  lemma ShiftSlice(p: seq<Directive>, t: seq<Directive>, a: nat, b: nat)
    requires a <= b <= |t|
    ensures (p + t)[|p| + a..|p| + b] == t[a..b]
    ensures a < |t| ==> (p + t)[|p| + a] == t[a]
  {
  }

  /**
   Nothing is lost and the order is kept: the input entries sit in the output in
   their order, each directly followed by the prices synthesized for it, which are
   Price directives dated like their transaction, and none follow anything else.
   */
  lemma {:induction false} BlocksShape(entries: seq<Directive>, h: Held, seen: set<PriceKey>, book: Booker)
    ensures var bs := Blocks(entries, h, seen, book);
      forall i :: 0 <= i < |bs| ==>
        && (!entries[i].Transaction? ==> bs[i].added == [])
        && forall x :: x in bs[i].added ==> x.Price? && x.date == entries[i].date
    decreases |entries|
  {
    if |entries| > 0 {
      var bs := Blocks(entries, h, seen, book);
      var e := entries[0];
      var next := if e.Transaction? then PostingsPass(e.date, e.postings, h, seen, book) else ([], h, seen);
      BlocksShape(entries[1..], next.1, next.2, book);
      var rest := Blocks(entries[1..], next.1, next.2, book);
      assert bs == [Block(e, next.0)] + rest;
      forall i | 0 <= i < |bs|
        ensures !entries[i].Transaction? ==> bs[i].added == []
        ensures forall x :: x in bs[i].added ==> x.Price? && x.date == entries[i].date
      {
        if i > 0 {
          assert bs[i] == rest[i - 1];
          assert entries[i] == entries[1..][i - 1];
        } else {
          assert bs[0].added == next.0;
          forall x | x in next.0
            ensures x.Price? && x.date == e.date
          {
            var j :| 0 <= j < |next.0| && next.0[j] == x;
          }
        }
      }
    }
  }

  /**
   Every input entry is kept, in order: the output holds entry `i` at position
   `pos[i]`, and the positions ascend.
   */
  lemma EntriesKept(entries: seq<Directive>, book: Booker)
    ensures var out := AddImplicitPrices(entries, book).0;
      var pos := Positions(Blocks(entries, map[], {}, book));
      && |pos| == |entries|
      && (forall i :: 0 <= i < |pos| ==> pos[i] < |out| && out[pos[i]] == entries[i])
      && (forall i :: 0 <= i < |pos| - 1 ==> pos[i] < pos[i + 1])
  {
    var bs := Blocks(entries, map[], {}, book);
    forall i | 0 <= i < |bs|
      ensures Positions(bs)[i] < |Flatten(bs)| && Flatten(bs)[Positions(bs)[i]] == entries[i]
      ensures i < |bs| - 1 ==> Positions(bs)[i] < Positions(bs)[i + 1]
    {
      PositionAt(bs, i);
    }
  }
}
