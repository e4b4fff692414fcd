/**
 The price map: per ordered currency pair (base, quote), the series of
 (date, rate) observations in ascending date order, built from Price
 directives with the inverse pair synthesised, and point-in-time lookups.
 */
module Prices {
  import opened Wrappers
  import opened Dates
  import opened Data
  import Strings

  /** An ordered currency pair (base, quote). */
  type Pair = (Currency, Currency)

  /** The same two currencies the other way round. */
  function Rev(p: Pair): Pair
  {
    (p.1, p.0)
  }

  /** One observation: the rate of one unit of base in quote on a date. */
  type Observation = (Date, real)

  type Series = seq<Observation>

  type PriceMap = map<Pair, Series>

  /** Strictly increasing dates, hence one observation per date. */
  predicate Ascending(s: Series)
  {
    forall i, j :: 0 <= i < j < |s| ==> Before(s[i].0, s[j].0)
  }

  /** The rate a series records on date `d`, if any. */
  function RateAt(s: Series, d: Date): Option<real>
    decreases |s|
  {
    if |s| == 0 then None
    else if s[0].0 == d then Some(s[0].1)
    else RateAt(s[1..], d)
  }

  /** In an ascending series the rate recorded on a date is the one at that date's index. */
  lemma {:induction false} RateAtIndex(s: Series, i: int)
    requires Ascending(s) && 0 <= i < |s|
    ensures RateAt(s, s[i].0) == Some(s[i].1)
    decreases i
  {
    if i > 0 {
      assert Before(s[0].0, s[i].0);
      RateAtIndex(s[1..], i - 1);
    }
  }

  /** A series records a rate exactly on the dates of its observations. */
  lemma {:induction false} RateAtSome(s: Series, d: Date)
    ensures RateAt(s, d).Some? <==> exists i :: 0 <= i < |s| && s[i].0 == d
    decreases |s|
  {
    if |s| > 0 {
      RateAtSome(s[1..], d);
      if s[0].0 != d {
        assert forall i :: 1 <= i < |s| ==> s[i] == s[1..][i - 1];
      }
    }
  }

  /**
   Record `x` on date `d`, replacing the rate already recorded on that date:
   the series stays ascending, records `x` on `d`, and is unchanged elsewhere.
   */
  function Record(s: Series, d: Date, x: real): (r: Series)
    requires Ascending(s)
    ensures Ascending(r)
    ensures RateAt(r, d) == Some(x)
    ensures forall e :: e != d ==> RateAt(r, e) == RateAt(s, e)
    ensures forall i :: 0 <= i < |r| ==> r[i] == (d, x) || r[i] in s
    decreases |s|
  {
    if |s| == 0 then [(d, x)]
    else if s[0].0 == d then
      assert forall i :: 1 <= i < |s| ==> Before(d, s[i].0);
      [(d, x)] + s[1..]
    else if Before(d, s[0].0) then
      assert forall i :: 0 <= i < |s| ==> Before(d, s[i].0);
      [(d, x)] + s
    else
      var t := Record(s[1..], d, x);
      assert forall i :: 0 <= i < |t| ==> Before(s[0].0, t[i].0) by {
        forall i | 0 <= i < |t|
          ensures Before(s[0].0, t[i].0)
        {
          if t[i] != (d, x) {
            var j :| 0 <= j < |s[1..]| && s[1..][j] == t[i];
            assert s[j + 1] == t[i];
          }
        }
      }
      assert forall i :: 1 <= i < |s| ==> s[i] in s;
      [s[0]] + t
  }

  /**
   The inverse series: each nonzero rate replaced by its reciprocal, on the
   same date; observations with a zero rate have no inverse and are dropped.
   */
  function Invert(s: Series): (r: Series)
    ensures |r| <= |s|
    ensures forall i :: 0 <= i < |r| ==> r[i].1 != 0.0
    decreases |s|
  {
    if |s| == 0 then []
    else if s[0].1 != 0.0 then
      Reciprocal(s[0].1);
      [(s[0].0, 1.0 / s[0].1)] + Invert(s[1..])
    else Invert(s[1..])
  }

  lemma Reciprocal(x: real)
    requires x != 0.0
    ensures 1.0 / x != 0.0 && 1.0 / (1.0 / x) == x
  {
    assert (1.0 / x) * x == 1.0;
  }

  /** A date before every date of a series is before every date of its inverse. */
  lemma {:induction false} InvertKeepsLaterDates(s: Series, x: Date)
    requires forall i :: 0 <= i < |s| ==> Before(x, s[i].0)
    ensures forall i :: 0 <= i < |Invert(s)| ==> Before(x, Invert(s)[i].0)
    decreases |s|
  {
    if |s| > 0 {
      InvertKeepsLaterDates(s[1..], x);
    }
  }

  /** The inverse of an ascending series ascends. */
  lemma {:induction false} InvertAscending(s: Series)
    requires Ascending(s)
    ensures Ascending(Invert(s))
    decreases |s|
  {
    if |s| > 0 {
      assert Ascending(s[1..]);
      InvertAscending(s[1..]);
      InvertKeepsLaterDates(s[1..], s[0].0);
    }
  }

  /**
   The inverse of an ascending series ascends and records, on each date, the
   reciprocal of the nonzero rate the series records there, and nothing else.
   */
  lemma {:induction false} InvertSpec(s: Series, d: Date)
    requires Ascending(s)
    ensures Ascending(Invert(s))
    ensures RateAt(Invert(s), d) ==
      if RateAt(s, d).Some? && RateAt(s, d).value != 0.0 then Some(1.0 / RateAt(s, d).value) else None
    decreases |s|
  {
    InvertAscending(s);
    if |s| > 0 {
      InvertSpec(s[1..], d);
      InvertKeepsLaterDates(s[1..], s[0].0);
      if s[0].0 != d && RateAt(s[1..], d).Some? {
        RateAtSome(s[1..], d);
      }
      if s[0].0 == d {
        RateAtSome(Invert(s[1..]), d);
      }
    }
  }

  /** Without zero rates nothing is dropped: the inverse has the same dates and the reciprocal rates. */
  lemma {:induction false} InvertNonzero(s: Series)
    requires forall i :: 0 <= i < |s| ==> s[i].1 != 0.0
    ensures |Invert(s)| == |s|
    ensures forall i :: 0 <= i < |s| ==> Invert(s)[i] == (s[i].0, 1.0 / s[i].1)
    decreases |s|
  {
    if |s| > 0 {
      InvertNonzero(s[1..]);
    }
  }

  /** Inverting twice gives back a series without zero rates. */
  lemma {:induction false} InvertInvolutive(s: Series)
    requires forall i :: 0 <= i < |s| ==> s[i].1 != 0.0
    ensures Invert(Invert(s)) == s
    decreases |s|
  {
    if |s| > 0 {
      InvertInvolutive(s[1..]);
      var x := s[0].1;
      var t := Invert(s);
      Reciprocal(x);
      assert t == [(s[0].0, 1.0 / x)] + Invert(s[1..]);
      assert t[1..] == Invert(s[1..]);
    }
  }

  /** `e` is a Price directive between two different currencies. */
  predicate IsPairPrice(e: Directive)
  {
    e.Price? && e.currency != e.amount.currency
  }

  /** The pair as a Price directive records it: (its currency, its amount's currency). */
  function Recorded(e: Directive): Pair
    requires e.Price?
  {
    (e.currency, e.amount.currency)
  }

  /** `e` is a price between the two currencies of `p`, recorded in either orientation. */
  predicate OnPair(e: Directive, p: Pair)
  {
    IsPairPrice(e) && (Recorded(e) == p || Recorded(e) == Rev(p))
  }

  /**
   The rate a Price directive gives for pair `p`: its own rate when recorded as
   `p`, the reciprocal of a nonzero rate when recorded the other way round.
   */
  function Contribution(e: Directive, p: Pair): Option<real>
  {
    if !IsPairPrice(e) then None
    else if Recorded(e) == p then Some(e.amount.number)
    else if Recorded(e) == Rev(p) && e.amount.number != 0.0 then Some(1.0 / e.amount.number)
    else None
  }

  /**
   The rate for `p` on date `d` that the last contributing directive of that
   date gives: a later directive overrides every earlier one.
   */
  function LastRate(entries: seq<Directive>, p: Pair, d: Date): Option<real>
    decreases |entries|
  {
    if |entries| == 0 then None
    else
      var later := LastRate(entries[1..], p, d);
      if later.Some? then later
      else if entries[0].date == d then Contribution(entries[0], p)
      else None
  }

  /** The orientation of the first price recorded between the two currencies of `p`. */
  function FirstOrientation(entries: seq<Directive>, p: Pair): (r: Option<Pair>)
    ensures r.Some? ==> r.value == p || r.value == Rev(p)
    ensures r.Some? <==> exists i :: 0 <= i < |entries| && OnPair(entries[i], p)
    decreases |entries|
  {
    if |entries| == 0 then None
    else if OnPair(entries[0], p) then Some(Recorded(entries[0]))
    else
      var r := FirstOrientation(entries[1..], p);
      assert forall i :: 1 <= i < |entries| ==> entries[i] == entries[1..][i - 1];
      r
  }

  /** Both orientations of a pair share the first recorded orientation. */
  lemma {:induction false} FirstOrientationSymmetric(entries: seq<Directive>, p: Pair)
    ensures FirstOrientation(entries, Rev(p)) == FirstOrientation(entries, p)
    decreases |entries|
  {
    if |entries| > 0 {
      FirstOrientationSymmetric(entries[1..], p);
    }
  }

  /**
   The map under construction holds one orientation per pair of currencies,
   never a currency priced in itself, each series ascending.
   */
  predicate WellFormed(fwd: PriceMap)
  {
    forall p :: p in fwd ==> p.0 != p.1 && Rev(p) !in fwd && Ascending(fwd[p])
  }

  /**
   Fold one directive into the map: a price goes into the series of its own
   orientation, or inverted into the series of the other orientation when that
   one exists; a new pair of currencies starts a series in its own orientation.
   */
  function Step(fwd: PriceMap, e: Directive): (r: PriceMap)
    requires WellFormed(fwd)
    ensures WellFormed(r)
  {
    if !IsPairPrice(e) then fwd
    else
      var p := Recorded(e);
      if p in fwd then fwd[p := Record(fwd[p], e.date, e.amount.number)]
      else if Rev(p) in fwd then
        if e.amount.number == 0.0 then fwd
        else fwd[Rev(p) := Record(fwd[Rev(p)], e.date, 1.0 / e.amount.number)]
      else fwd[p := [(e.date, e.amount.number)]]
  }

  function Fold(entries: seq<Directive>, fwd: PriceMap): (r: PriceMap)
    requires WellFormed(fwd)
    ensures WellFormed(r)
    decreases |entries|
  {
    if |entries| == 0 then fwd else Fold(entries[1..], Step(fwd, entries[0]))
  }

  /** Add the inverse of every stored series under the reversed pair. */
  function WithInverses(fwd: PriceMap): (m: PriceMap)
    requires WellFormed(fwd)
    ensures forall p :: p in m <==> p in fwd || Rev(p) in fwd
    ensures forall p :: p in fwd ==> p in m && Rev(p) in m
    ensures forall p :: p in fwd ==> m[p] == fwd[p] && m[Rev(p)] == Invert(fwd[p])
  {
    var reversed := set q | q in fwd :: Rev(q);
    assert forall p :: p in reversed <==> Rev(p) in fwd by {
      forall p
        ensures p in reversed <==> Rev(p) in fwd
      {
        if Rev(p) in fwd {
          assert Rev(Rev(p)) == p;
        }
      }
    }
    assert forall p :: p in fwd ==> Rev(p) in reversed;
    map p | p in fwd.Keys + reversed :: if p in fwd then fwd[p] else Invert(fwd[Rev(p)])
  }

  /** Adding the inverses to a well-formed map pairs every series with its inverse; all of them ascend. */
  lemma InversesPaired(fwd: PriceMap)
    requires WellFormed(fwd)
    ensures var m := WithInverses(fwd);
      forall q :: q in m ==> && q.0 != q.1 && Rev(q) in m && Ascending(m[q])
                             && (m[Rev(q)] == Invert(m[q]) || m[q] == Invert(m[Rev(q)]))
  {
    var m := WithInverses(fwd);
    forall q | q in m
      ensures q.0 != q.1 && Rev(q) in m && Ascending(m[q])
      ensures m[Rev(q)] == Invert(m[q]) || m[q] == Invert(m[Rev(q)])
    {
      assert Rev(Rev(q)) == q;
      if q !in fwd {
        InvertAscending(fwd[Rev(q)]);
      }
    }
  }

  /**
   `build_price_map`: fold the price directives in input order, then synthesise
   the inverses; every pair's reversed pair is then present, no currency is
   priced in itself, every series ascends, and of a pair and its reversed pair
   one holds the inverse series of the other.
   */
  function BuildPriceMap(entries: seq<Directive>): (m: PriceMap)
    ensures forall q :: q in m ==> q.0 != q.1 && Rev(q) in m && Ascending(m[q])
    ensures forall q :: q in m ==> m[Rev(q)] == Invert(m[q]) || m[q] == Invert(m[Rev(q)])
  {
    InversesPaired(Fold(entries, map[]));
    WithInverses(Fold(entries, map[]))
  }

  /** What one step does to the series of pair `p`. */
  lemma StepSpec(fwd: PriceMap, e: Directive, p: Pair)
    requires WellFormed(fwd) && p.0 != p.1
    ensures var r := Step(fwd, e);
      && (p in r <==> p in fwd || (Rev(p) !in fwd && OnPair(e, p) && Recorded(e) == p))
      && (OnPair(e, p) ==> p in r || Rev(p) in r)
      && (!OnPair(e, p) ==> Contribution(e, p).None? && (p in r <==> p in fwd) && (Rev(p) in r <==> Rev(p) in fwd))
      && (p in r ==> forall d :: (RateAt(r[p], d) ==
            if e.date == d && Contribution(e, p).Some? then Contribution(e, p)
            else if p in fwd then RateAt(fwd[p], d) else None))
  {
  }

  /**
   The fold, pair by pair: the orientation first recorded gets a series, and that
   series records on each date the rate of the last directive of that date.
   */
  lemma {:induction false} FoldSpec(entries: seq<Directive>, fwd: PriceMap, p: Pair)
    requires WellFormed(fwd) && p.0 != p.1
    ensures var r := Fold(entries, fwd);
      && (p in r <==> p in fwd || (Rev(p) !in fwd && FirstOrientation(entries, p) == Some(p)))
      && (p in r ==> forall d :: (RateAt(r[p], d) ==
            if LastRate(entries, p, d).Some? then LastRate(entries, p, d)
            else if p in fwd then RateAt(fwd[p], d) else None))
    decreases |entries|
  {
    if |entries| > 0 {
      var e := entries[0];
      var next := Step(fwd, e);
      StepSpec(fwd, e, p);
      StepSpec(fwd, e, Rev(p));
      FoldSpec(entries[1..], next, p);
    }
  }

  /** The fold from an empty map keeps the orientation recorded first, with the last rate of each date. */
  lemma FoldFromEmpty(entries: seq<Directive>, q: Pair)
    requires q.0 != q.1
    ensures var fwd := Fold(entries, map[]);
      && (q in fwd <==> FirstOrientation(entries, q) == Some(q))
      && (q in fwd ==> forall d :: RateAt(fwd[q], d) == LastRate(entries, q, d))
  {
    FoldSpec(entries, map[], q);
  }

  /** A built map holds a pair exactly when some price between its two currencies was recorded. */
  lemma BuildPriceMapKeys(entries: seq<Directive>, q: Pair)
    ensures q in BuildPriceMap(entries) <==> exists i :: 0 <= i < |entries| && OnPair(entries[i], q)
  {
    var fwd := Fold(entries, map[]);
    FirstOrientationSymmetric(entries, q);
    assert Rev(Rev(q)) == q;
    if q.0 == q.1 {
      assert q !in fwd && Rev(q) !in fwd;
    } else {
      FoldFromEmpty(entries, q);
      FoldFromEmpty(entries, Rev(q));
    }
  }

  /** Every series of a built map ascends, and every pair's inverse is present. */
  lemma BuildPriceMapSeries(entries: seq<Directive>, q: Pair)
    requires q in BuildPriceMap(entries)
    ensures Rev(q) in BuildPriceMap(entries) && Ascending(BuildPriceMap(entries)[q])
  {
    var fwd := Fold(entries, map[]);
    assert Rev(Rev(q)) == q;
    if q !in fwd {
      InvertAscending(fwd[Rev(q)]);
    }
  }

  /** The orientation recorded first holds the last rate of each date; the other orientation its inverse. */
  lemma BuildPriceMapForward(entries: seq<Directive>, q: Pair)
    requires FirstOrientation(entries, q) == Some(q)
    ensures q in BuildPriceMap(entries)
    ensures forall d :: RateAt(BuildPriceMap(entries)[q], d) == LastRate(entries, q, d)
    ensures BuildPriceMap(entries)[Rev(q)] == Invert(BuildPriceMap(entries)[q])
  {
    var i :| 0 <= i < |entries| && OnPair(entries[i], q);
    FoldFromEmpty(entries, q);
  }

  /**
   `build_price_map`: a pair is present exactly when some price between its two
   currencies was recorded, in either orientation, so every pair's inverse is
   present; every series ascends by date; the orientation recorded first holds
   on each date the rate of the last directive of that date (the reverse
   orientation's rates inverted); the other orientation holds its inverse.
   */
  lemma BuildPriceMapSpec(entries: seq<Directive>)
    ensures var m := BuildPriceMap(entries);
      && (forall q :: q in m <==> exists i :: 0 <= i < |entries| && OnPair(entries[i], q))
      && (forall q :: q in m ==> Rev(q) in m && Ascending(m[q]))
      && (forall q, d :: q in m && FirstOrientation(entries, q) == Some(q) ==>
            RateAt(m[q], d) == LastRate(entries, q, d))
      && (forall q :: q in m && FirstOrientation(entries, q) == Some(q) ==> m[Rev(q)] == Invert(m[q]))
  {
    var m := BuildPriceMap(entries);
    forall q
      ensures q in m <==> exists i :: 0 <= i < |entries| && OnPair(entries[i], q)
    {
      BuildPriceMapKeys(entries, q);
    }
    forall q | q in m
      ensures Rev(q) in m && Ascending(m[q])
    {
      BuildPriceMapSeries(entries, q);
    }
    forall q | q in m && FirstOrientation(entries, q) == Some(q)
      ensures (forall d :: RateAt(m[q], d) == LastRate(entries, q, d)) && m[Rev(q)] == Invert(m[q])
    {
      BuildPriceMapForward(entries, q);
    }
  }

  /** The first USD price in CAD starts the USD/CAD series. */
  lemma StepStart(d: Date, x: real)
    ensures Step(map[], Price(d, "USD", Amount(x, "CAD"))) == map[("USD", "CAD") := [(d, x)]]
  {
  }

  /** A second USD price in CAD on the same date replaces the first. */
  lemma StepReplace(d: Date, x: real, y: real)
    ensures WellFormed(map[("USD", "CAD") := [(d, x)]])
    ensures Step(map[("USD", "CAD") := [(d, x)]], Price(d, "USD", Amount(y, "CAD"))) == map[("USD", "CAD") := [(d, y)]]
  {
    assert [(d, x)][1..] == [];
    assert Record([(d, x)], d, y) == [(d, y)];
  }

  /** Folding three USD prices in CAD of one date keeps only the last rate. */
  lemma FoldSameDate(d: Date, x: real, y: real, z: real)
    ensures Fold([Price(d, "USD", Amount(x, "CAD")), Price(d, "USD", Amount(y, "CAD")), Price(d, "USD", Amount(z, "CAD"))], map[])
      == map[("USD", "CAD") := [(d, z)]]
  {
    var e1 := Price(d, "USD", Amount(x, "CAD"));
    var e2 := Price(d, "USD", Amount(y, "CAD"));
    var e3 := Price(d, "USD", Amount(z, "CAD"));
    var es := [e1, e2, e3];
    var p := ("USD", "CAD");
    StepStart(d, x);
    StepReplace(d, x, y);
    StepReplace(d, y, z);
    var f1 := map[p := [(d, x)]];
    var f2 := map[p := [(d, y)]];
    assert es[1..] == [e2, e3] && [e2, e3][1..] == [e3] && [e3][1..] == [];
    assert Fold(es, map[]) == Fold([e2, e3], f1);
    assert Fold([e2, e3], f1) == Fold([e3], f2);
  }

  /** A single USD/CAD observation gets the reciprocal observation under CAD/USD. */
  lemma InverseOfOne(d: Date, z: real)
    requires z != 0.0
    ensures WellFormed(map[("USD", "CAD") := [(d, z)]])
    ensures var m := WithInverses(map[("USD", "CAD") := [(d, z)]]);
      && m.Keys == {("USD", "CAD"), ("CAD", "USD")}
      && m[("USD", "CAD")] == [(d, z)]
      && m[("CAD", "USD")] == [(d, 1.0 / z)]
  {
    StepReplace(d, z, z);
    var p := ("USD", "CAD");
    var m := WithInverses(map[p := [(d, z)]]);
    assert Rev(p) == ("CAD", "USD");
    assert [(d, z)][1..] == [];
    assert Invert([(d, z)]) == [(d, 1.0 / z)];
    assert m.Keys == {p, Rev(p)};
  }

  /** Three prices of USD in CAD on one date: the last one read is the one kept, and the inverse is its reciprocal. */
  lemma SameDateRates(d: Date, x: real, y: real, z: real)
    requires z != 0.0
    ensures var m := BuildPriceMap([Price(d, "USD", Amount(x, "CAD")),
                                    Price(d, "USD", Amount(y, "CAD")),
                                    Price(d, "USD", Amount(z, "CAD"))]);
      && m.Keys == {("USD", "CAD"), ("CAD", "USD")}
      && m[("USD", "CAD")] == [(d, z)]
      && m[("CAD", "USD")] == [(d, 1.0 / z)]
  {
    FoldSameDate(d, x, y, z);
    InverseOfOne(d, z);
  }

  /** The prices of the test: 1.13, 1.12 and 1.11 on 2013-06-02. */
  lemma SameDateScenario()
    ensures var d := Date(2013, 6, 2);
      var m := BuildPriceMap([Price(d, "USD", Amount(1.13, "CAD")),
                              Price(d, "USD", Amount(1.12, "CAD")),
                              Price(d, "USD", Amount(1.11, "CAD"))]);
      && m.Keys == {("USD", "CAD"), ("CAD", "USD")}
      && m[("USD", "CAD")] == [(d, 1.11)]
      && |m[("CAD", "USD")]| == 1
  {
    SameDateRates(Date(2013, 6, 2), 1.13, 1.12, 1.11);
  }

  /** No observation of the map has a zero rate. */
  predicate NonzeroRates(m: PriceMap)
  {
    forall p, i :: p in m && 0 <= i < |m[p]| ==> m[p][i].1 != 0.0
  }

  /** Every observation of a built series comes from a price directive; none is zero when no recorded rate is. */
  lemma {:induction false} FoldNonzero(entries: seq<Directive>, fwd: PriceMap)
    requires WellFormed(fwd)
    requires NonzeroRates(fwd)
    requires forall i :: 0 <= i < |entries| && entries[i].Price? ==> entries[i].amount.number != 0.0
    ensures NonzeroRates(Fold(entries, fwd))
    decreases |entries|
  {
    if |entries| > 0 {
      var e := entries[0];
      var next := Step(fwd, e);
      if IsPairPrice(e) {
        assert e.amount.number != 0.0;
        assert 1.0 / e.amount.number != 0.0;
      }
      assert NonzeroRates(next);
      FoldNonzero(entries[1..], next);
    }
  }

  /** When no recorded rate is zero, a pair and its inverse have series of equal length. */
  lemma InverseSameLength(entries: seq<Directive>, q: Pair)
    requires forall i :: 0 <= i < |entries| && entries[i].Price? ==> entries[i].amount.number != 0.0
    requires q in BuildPriceMap(entries)
    ensures |BuildPriceMap(entries)[q]| == |BuildPriceMap(entries)[Rev(q)]|
  {
    var fwd := Fold(entries, map[]);
    FoldNonzero(entries, map[]);
    assert Rev(Rev(q)) == q;
    if q in fwd {
      InvertNonzero(fwd[q]);
    } else {
      InvertNonzero(fwd[Rev(q)]);
    }
  }

  // ---------------------------------------------------------------------
  // Lookups.

  /** How a caller names a pair: as an explicit pair or as a `BASE/QUOTE` string. */
  datatype PairSpec = PairOf(base: Currency, quote: Currency) | Text(text: string)

  datatype PriceError =
    | MalformedPair(text: string)            // the assertion in `normalize_base_quote`
    | PairNotFound(base: Currency, quote: Currency)  // the `KeyError` of a lookup

  /** How many times `ch` occurs in `s`. */
  function Occurrences(s: string, ch: char): nat
    decreases |s|
  {
    if |s| == 0 then 0 else (if s[0] == ch then 1 else 0) + Occurrences(s[1..], ch)
  }

  /** A string splits into one more piece than it has separators. */
  lemma {:induction false} SplitCount(s: string, sep: char)
    ensures |Strings.Split(s, sep)| == Occurrences(s, sep) + 1
    decreases |s|
  {
    if |s| > 0 {
      SplitCount(s[1..], sep);
    }
  }

  /**
   `normalize_base_quote`: an explicit pair as is; a string split on `/`, which
   must give exactly two parts.
   */
  function NormalizeBaseQuote(spec: PairSpec): (r: Result<Pair, PriceError>)
    ensures spec.PairOf? ==> r == Ok((spec.base, spec.quote))
    ensures spec.Text? ==> (r.Ok? <==> Occurrences(spec.text, '/') == 1)
    ensures spec.Text? && r.Ok? ==> '/' !in r.value.0 && '/' !in r.value.1 && r.value.0 + "/" + r.value.1 == spec.text
    ensures r.Err? ==> r.error == MalformedPair(spec.text)
  {
    match spec
    case PairOf(b, q) => Ok((b, q))
    case Text(s) =>
      var parts := Strings.Split(s, '/');
      SplitCount(s, '/');
      if |parts| == 2 then
        Strings.JoinSplit(s, '/');
        assert Strings.Join(parts, '/') == parts[0] + "/" + parts[1];
        Ok((parts[0], parts[1]))
      else Err(MalformedPair(s))
  }

  /** The string form of a pair normalises back to the pair. */
  lemma NormalizeRoundTrip(b: Currency, q: Currency)
    requires '/' !in b && '/' !in q
    ensures NormalizeBaseQuote(Text(b + "/" + q)) == Ok((b, q))
  {
    Strings.SplitJoin([b, q], '/');
    assert Strings.Join([b, q], '/') == b + "/" + q;
  }

  /**
   `_lookup_price_and_inverse`: the stored series, else the inverse of the
   reversed pair's series, else an error that names the pair as requested.
   */
  function LookupPriceAndInverse(m: PriceMap, p: Pair): (r: Result<Series, PriceError>)
    ensures r.Err? <==> p !in m && Rev(p) !in m
    ensures r.Err? ==> r.error == PairNotFound(p.0, p.1)
    ensures p in m ==> r == Ok(m[p])
    ensures p !in m && Rev(p) in m ==> r == Ok(Invert(m[Rev(p)]))
  {
    if p in m then Ok(m[p])
    else if Rev(p) in m then Ok(Invert(m[Rev(p)]))
    else Err(PairNotFound(p.0, p.1))
  }

  /** Every series of the map ascends by date (true of a built map). */
  predicate AllAscending(m: PriceMap)
  {
    forall p :: p in m ==> Ascending(m[p])
  }

  /** Looking up a map whose series ascend gives an ascending series. */
  lemma LookupAscending(m: PriceMap, p: Pair)
    requires AllAscending(m)
    ensures LookupPriceAndInverse(m, p).Ok? ==> Ascending(LookupPriceAndInverse(m, p).value)
  {
    if p !in m && Rev(p) in m {
      InvertAscending(m[Rev(p)]);
    }
  }

  /** A built map's lookup of the reversed pair is the inverse series of the pair recorded first. */
  lemma LookupInverseOfBuilt(entries: seq<Directive>, q: Pair)
    requires FirstOrientation(entries, q) == Some(q)
    ensures LookupPriceAndInverse(BuildPriceMap(entries), Rev(q)).Ok?
    ensures LookupPriceAndInverse(BuildPriceMap(entries), Rev(q)).value
         == Invert(LookupPriceAndInverse(BuildPriceMap(entries), q).value)
  {
    BuildPriceMapSpec(entries);
    var i :| 0 <= i < |entries| && OnPair(entries[i], q);
  }

  /**
   `get_all_prices`: the whole series of the pair, ascending by date (the
   inverse view when only the reversed pair is stored); an error for a malformed
   pair or a pair stored in neither orientation.
   */
  function GetAllPrices(m: PriceMap, spec: PairSpec): (r: Result<Series, PriceError>)
    requires AllAscending(m)
    ensures r.Ok? ==> Ascending(r.value)
    ensures r.Ok? <==> (NormalizeBaseQuote(spec).Ok? &&
      (NormalizeBaseQuote(spec).value in m || Rev(NormalizeBaseQuote(spec).value) in m))
    ensures NormalizeBaseQuote(spec).Ok? && r.Err? ==>
      r.error == PairNotFound(NormalizeBaseQuote(spec).value.0, NormalizeBaseQuote(spec).value.1)
  {
    match NormalizeBaseQuote(spec)
    case Err(e) => Err(e)
    case Ok(p) =>
      LookupAscending(m, p);
      LookupPriceAndInverse(m, p)
  }

  /** A point-in-time answer: a date and a rate, both absent when there is none. */
  type Quote = (Option<Date>, Option<real>)

  function AsQuote(o: Option<Observation>): Quote
  {
    match o
    case Some(obs) => (Some(obs.0), Some(obs.1))
    case None => (None, None)
  }

  /**
   `get_latest_price`: the last observation of the pair; both parts absent — not
   an error — for an unknown pair or an empty series.
   */
  function GetLatestPrice(m: PriceMap, spec: PairSpec): (r: Result<Quote, PriceError>)
    requires AllAscending(m)
    ensures NormalizeBaseQuote(spec).Err? <==> r.Err?
    ensures r.Ok? && GetAllPrices(m, spec).Err? ==> r.value == (None, None)
    ensures r.Ok? && GetAllPrices(m, spec).Ok? ==>
      var s := GetAllPrices(m, spec).value;
      && (|s| == 0 ==> r.value == (None, None))
      && (|s| > 0 ==> r.value.0.Some? && r.value.1.Some? && (r.value.0.value, r.value.1.value) in s)
      && (|s| > 0 ==> forall i :: 0 <= i < |s| ==> NotAfter(s[i].0, r.value.0.value))
  {
    match NormalizeBaseQuote(spec)
    case Err(e) => Err(e)
    case Ok(p) =>
      match LookupPriceAndInverse(m, p)
      case Err(_) => Ok((None, None))
      case Ok(s) =>
        if |s| == 0 then Ok((None, None)) else Ok(AsQuote(Some(s[|s| - 1])))
  }

  /** The observation in force on `date`: the last one dated on or before it (linear reference). */
  function PriceAt(s: Series, date: Date): Option<Observation>
    decreases |s|
  {
    if |s| == 0 then None
    else if NotAfter(s[|s| - 1].0, date) then Some(s[|s| - 1])
    else PriceAt(s[..|s| - 1], date)
  }

  /**
   The lookup is a step function: nothing before the first observation, and
   otherwise the observation with the greatest date on or before the query date.
   */
  lemma {:induction false} PriceAtIsStep(s: Series, date: Date)
    requires Ascending(s)
    ensures PriceAt(s, date).None? <==> (|s| == 0 || Before(date, s[0].0))
    ensures PriceAt(s, date).Some? ==>
      var o := PriceAt(s, date).value;
      && o in s
      && NotAfter(o.0, date)
      && forall i :: 0 <= i < |s| && NotAfter(s[i].0, date) ==> NotAfter(s[i].0, o.0)
    decreases |s|
  {
    if |s| > 0 && !NotAfter(s[|s| - 1].0, date) {
      var init := s[..|s| - 1];
      assert Ascending(init);
      PriceAtIsStep(init, date);
      if |init| > 0 {
        assert init[0] == s[0];
      }
      if PriceAt(init, date).Some? {
        assert forall x :: x in init ==> x in s;
      }
    }
  }

  /**
   The step lookup commutes with inversion: on every date the inverse series has
   an observation exactly when the series has one, on the same date and with the
   reciprocal rate.
   */
  lemma {:induction false} PriceAtInvert(s: Series, d: Date)
    requires forall i :: 0 <= i < |s| ==> s[i].1 != 0.0
    ensures PriceAt(Invert(s), d).Some? <==> PriceAt(s, d).Some?
    ensures PriceAt(s, d).Some? ==> PriceAt(s, d).value.1 != 0.0
    ensures PriceAt(s, d).Some? ==>
      PriceAt(Invert(s), d).value == (PriceAt(s, d).value.0, 1.0 / PriceAt(s, d).value.1)
    decreases |s|
  {
    InvertNonzero(s);
    if |s| > 0 {
      var init := s[..|s| - 1];
      InvertNonzero(init);
      assert Invert(s)[..|s| - 1] == Invert(init);
      PriceAtInvert(init, d);
    }
  }

  /**
   In a built map without zero rates, the step lookups of a pair and of its
   reversed pair agree on every date: both absent, or the same date with
   reciprocal rates.
   */
  lemma BuiltPriceAtInverse(entries: seq<Directive>, q: Pair, d: Date)
    requires forall i :: 0 <= i < |entries| && entries[i].Price? ==> entries[i].amount.number != 0.0
    requires q in BuildPriceMap(entries)
    ensures Rev(q) in BuildPriceMap(entries)
    ensures var m := BuildPriceMap(entries);
      && (PriceAt(m[Rev(q)], d).Some? <==> PriceAt(m[q], d).Some?)
      && (PriceAt(m[q], d).Some? ==> PriceAt(m[q], d).value.1 != 0.0)
      && (PriceAt(m[q], d).Some? ==>
            PriceAt(m[Rev(q)], d).value == (PriceAt(m[q], d).value.0, 1.0 / PriceAt(m[q], d).value.1))
  {
    var m := BuildPriceMap(entries);
    var fwd := Fold(entries, map[]);
    BuildPriceMapSeries(entries, q);
    FoldNonzero(entries, map[]);
    assert Rev(Rev(q)) == q;
    if q in fwd {
      PriceAtInvert(m[q], d);
    } else {
      var s := m[Rev(q)];
      assert m[q] == Invert(s);
      PriceAtInvert(s, d);
      if PriceAt(s, d).Some? {
        Reciprocal(PriceAt(s, d).value.1);
      }
    }
  }

  /**
   What `get_price` answers on a date for a pair of a built map without zero
   rates, and for the reversed pair: the same date, or none for both, and
   reciprocal prices.
   */
  lemma GetPriceInverse(entries: seq<Directive>, base: Currency, quote: Currency, d: Date)
    requires forall i :: 0 <= i < |entries| && entries[i].Price? ==> entries[i].amount.number != 0.0
    requires (base, quote) in BuildPriceMap(entries)
    ensures AllAscending(BuildPriceMap(entries))
    ensures GetAllPrices(BuildPriceMap(entries), PairOf(base, quote)).Ok?
    ensures GetAllPrices(BuildPriceMap(entries), PairOf(quote, base)).Ok?
    ensures var m := BuildPriceMap(entries);
      var there := AsQuote(PriceAt(GetAllPrices(m, PairOf(base, quote)).value, d));
      var back := AsQuote(PriceAt(GetAllPrices(m, PairOf(quote, base)).value, d));
      && back.0 == there.0
      && (there.1.Some? <==> back.1.Some?)
      && (there.1.Some? ==> there.1.value != 0.0 && back.1.value == 1.0 / there.1.value)
  {
    BuildPriceMapSpec(entries);
    BuiltPriceAtInverse(entries, (base, quote), d);
  }

  /** `bisect_right` on the dates: the number of observations dated on or before `date`. */
  method BisectRight(s: Series, date: Date) returns (k: nat)
    requires Ascending(s)
    ensures k <= |s|
    ensures forall i :: 0 <= i < k ==> NotAfter(s[i].0, date)
    ensures forall i :: k <= i < |s| ==> Before(date, s[i].0)
  {
    var lo, hi := 0, |s|;
    while lo < hi
      invariant 0 <= lo <= hi <= |s|
      invariant forall i :: 0 <= i < lo ==> NotAfter(s[i].0, date)
      invariant forall i :: hi <= i < |s| ==> Before(date, s[i].0)
      decreases hi - lo
    {
      var mid := (lo + hi) / 2;
      if Before(date, s[mid].0) {
        hi := mid;
      } else {
        lo := mid + 1;
      }
    }
    k := lo;
  }

  /** The binary search finds the same observation as the linear reference. */
  lemma {:induction false} PriceAtBisect(s: Series, date: Date, k: nat)
    requires Ascending(s) && k <= |s|
    requires forall i :: 0 <= i < k ==> NotAfter(s[i].0, date)
    requires forall i :: k <= i < |s| ==> Before(date, s[i].0)
    ensures PriceAt(s, date) == if k == 0 then None else Some(s[k - 1])
    decreases |s|
  {
    if |s| > 0 && k < |s| {
      var init := s[..|s| - 1];
      PriceAtBisect(init, date, k);
    }
  }

  /**
   `get_price`: with no date, the latest price; otherwise the observation in
   force on that date, found by binary search, and both parts absent before the
   first observation or for an unknown pair.
   */
  method GetPrice(m: PriceMap, spec: PairSpec, date: Option<Date>) returns (r: Result<Quote, PriceError>)
    requires AllAscending(m)
    ensures date.None? ==> r == GetLatestPrice(m, spec)
    ensures date.Some? ==> (r.Err? <==> NormalizeBaseQuote(spec).Err?)
    ensures date.Some? && r.Ok? && GetAllPrices(m, spec).Err? ==> r.value == (None, None)
    ensures date.Some? && r.Ok? && GetAllPrices(m, spec).Ok? ==>
      r.value == AsQuote(PriceAt(GetAllPrices(m, spec).value, date.value))
  {
    if date.None? {
      return GetLatestPrice(m, spec);
    }
    match NormalizeBaseQuote(spec) {
      case Err(e) =>
        return Err(e);
      case Ok(p) =>
        match LookupPriceAndInverse(m, p) {
          case Err(_) =>
            return Ok((None, None));
          case Ok(s) =>
            LookupAscending(m, p);
            var k := BisectRight(s, date.value);
            PriceAtBisect(s, date.value, k);
            if k == 0 {
              return Ok((None, None));
            }
            return Ok(AsQuote(Some(s[k - 1])));
        }
    }
  }

  // ---------------------------------------------------------------------
  // The last price entries before a date.

  /** The entries before the first one dated on or after `date` (all of them without a date). */
  function EntriesBefore(entries: seq<Directive>, date: Option<Date>): (r: seq<Directive>)
    ensures |r| <= |entries| && r == entries[..|r|]
    ensures date.Some? ==> forall i :: 0 <= i < |r| ==> Before(r[i].date, date.value)
    ensures date.Some? && |r| < |entries| ==> !Before(entries[|r|].date, date.value)
    ensures date.None? ==> r == entries
    decreases |entries|
  {
    if |entries| == 0 then []
    else if date.Some? && !Before(entries[0].date, date.value) then []
    else
      var rest := EntriesBefore(entries[1..], date);
      assert [entries[0]] + entries[1..][..|rest|] == entries[..|rest| + 1];
      [entries[0]] + rest
  }

  /** Some price entry of `entries` records pair `p`. */
  predicate HasPriceFor(entries: seq<Directive>, p: Pair)
  {
    exists i :: 0 <= i < |entries| && entries[i].Price? && Recorded(entries[i]) == p
  }

  /** Entry `k` is a price entry and no later entry prices the same pair. */
  predicate IsLastPriceAt(entries: seq<Directive>, k: int)
    requires 0 <= k < |entries|
  {
    entries[k].Price? && !HasPriceFor(entries[k + 1..], Recorded(entries[k]))
  }

  /** `x` is a price entry of `entries` that no later entry of the same pair follows. */
  predicate IsLastPrice(entries: seq<Directive>, x: Directive)
  {
    exists k :: 0 <= k < |entries| && entries[k] == x && IsLastPriceAt(entries, k)
  }

  /** The facts relating a sequence of entries to its tail that `LastPerPair` needs. */
  lemma LastPerPairStep(entries: seq<Directive>)
    requires |entries| > 0
    ensures forall p :: HasPriceFor(entries, p) <==>
      HasPriceFor(entries[1..], p) || (entries[0].Price? && Recorded(entries[0]) == p)
    ensures forall k :: 0 <= k < |entries| - 1 ==>
      (IsLastPriceAt(entries[1..], k) <==> IsLastPriceAt(entries, k + 1))
    ensures entries[0].Price? ==> (IsLastPriceAt(entries, 0) <==> !HasPriceFor(entries[1..], Recorded(entries[0])))
  {
    var tail := entries[1..];
    forall p | HasPriceFor(entries, p)
      ensures HasPriceFor(tail, p) || (entries[0].Price? && Recorded(entries[0]) == p)
    {
      var k :| 0 <= k < |entries| && entries[k].Price? && Recorded(entries[k]) == p;
      if k > 0 {
        assert tail[k - 1] == entries[k];
      }
    }
    forall p | HasPriceFor(tail, p)
      ensures HasPriceFor(entries, p)
    {
      var k :| 0 <= k < |tail| && tail[k].Price? && Recorded(tail[k]) == p;
      assert entries[k + 1] == tail[k];
    }
    forall k | 0 <= k < |entries| - 1
      ensures IsLastPriceAt(tail, k) <==> IsLastPriceAt(entries, k + 1)
    {
      assert tail[k + 1..] == entries[k + 2..];
      assert tail[k] == entries[k + 1];
    }
    assert entries[0 + 1..] == tail;
  }

  /** The last-price entries that the first entry of `entries` adds in front of those of its tail. */
  function LastPerPairHead(entries: seq<Directive>, rest: seq<Directive>): seq<Directive>
    requires |entries| > 0
  {
    var e := entries[0];
    if e.Price? && !HasPriceFor(entries[1..], Recorded(e)) then [e] + rest else rest
  }

  /** A last price entry of the tail is a last price entry of the whole sequence. */
  lemma LastOfTail(entries: seq<Directive>, rest: seq<Directive>)
    requires |entries| > 0
    requires forall i :: 0 <= i < |rest| ==> IsLastPrice(entries[1..], rest[i])
    ensures forall i :: 0 <= i < |rest| ==> IsLastPrice(entries, rest[i])
  {
    var tail := entries[1..];
    LastPerPairStep(entries);
    forall i | 0 <= i < |rest|
      ensures IsLastPrice(entries, rest[i])
    {
      assert IsLastPrice(tail, rest[i]);
      var k :| 0 <= k < |tail| && tail[k] == rest[i] && IsLastPriceAt(tail, k);
      assert entries[k + 1] == rest[i];
    }
  }

  /** Every pair priced in the sequence is recorded by the step's answer. */
  lemma HeadCovers(entries: seq<Directive>, rest: seq<Directive>)
    requires |entries| > 0
    requires forall i :: 0 <= i < |rest| ==> rest[i].Price?
    requires forall p :: HasPriceFor(entries[1..], p) <==> exists i :: 0 <= i < |rest| && Recorded(rest[i]) == p
    ensures var r := LastPerPairHead(entries, rest);
      forall p :: HasPriceFor(entries, p) <==> exists i :: 0 <= i < |r| && Recorded(r[i]) == p
  {
    var tail := entries[1..];
    var e := entries[0];
    LastPerPairStep(entries);
    var r := LastPerPairHead(entries, rest);
    if e.Price? && !HasPriceFor(tail, Recorded(e)) {
      assert forall i :: 1 <= i < |r| ==> r[i] == rest[i - 1];
      forall p | HasPriceFor(entries, p)
        ensures exists i :: 0 <= i < |r| && Recorded(r[i]) == p
      {
        if Recorded(e) != p {
          var i :| 0 <= i < |rest| && Recorded(rest[i]) == p;
          assert r[i + 1] == rest[i];
        } else {
          assert r[0] == e;
        }
      }
    }
  }

  /** The step of `LastPerPair`: what holds of the tail's answer carries over to the whole sequence. */
  lemma LastPerPairCons(entries: seq<Directive>, rest: seq<Directive>)
    requires |entries| > 0
    requires forall i :: 0 <= i < |rest| ==> rest[i].Price?
    requires forall i :: 0 <= i < |rest| ==> IsLastPrice(entries[1..], rest[i])
    requires forall p :: HasPriceFor(entries[1..], p) <==> exists i :: 0 <= i < |rest| && Recorded(rest[i]) == p
    requires forall i, j :: 0 <= i < j < |rest| ==> Recorded(rest[i]) != Recorded(rest[j])
    ensures var r := LastPerPairHead(entries, rest);
      && (forall i :: 0 <= i < |r| ==> r[i].Price?)
      && (forall i :: 0 <= i < |r| ==> IsLastPrice(entries, r[i]))
      && (forall p :: HasPriceFor(entries, p) <==> exists i :: 0 <= i < |r| && Recorded(r[i]) == p)
      && (forall i, j :: 0 <= i < j < |r| ==> Recorded(r[i]) != Recorded(r[j]))
  {
    LastOfTail(entries, rest);
    HeadCovers(entries, rest);
    var e := entries[0];
    if e.Price? && !HasPriceFor(entries[1..], Recorded(e)) {
      LastPerPairStep(entries);
      var r := [e] + rest;
      assert forall i :: 1 <= i < |r| ==> r[i] == rest[i - 1];
      assert forall i :: 0 <= i < |rest| ==> Recorded(rest[i]) != Recorded(e);
    }
  }

  /** The price entries of `entries` that no later price entry of the same pair follows, in input order. */
  function LastPerPair(entries: seq<Directive>): (r: seq<Directive>)
    ensures forall i :: 0 <= i < |r| ==> r[i].Price?
    ensures forall i :: 0 <= i < |r| ==> IsLastPrice(entries, r[i])
    ensures forall p :: HasPriceFor(entries, p) <==> exists i :: 0 <= i < |r| && Recorded(r[i]) == p
    ensures forall i, j :: 0 <= i < j < |r| ==> Recorded(r[i]) != Recorded(r[j])
    decreases |entries|
  {
    if |entries| == 0 then []
    else
      var rest := LastPerPair(entries[1..]);
      LastPerPairCons(entries, rest);
      LastPerPairHead(entries, rest)
  }

  /**
   `get_last_price_entries`: for every pair, the last price entry among the entries
   dated strictly before `date` (all entries when no date is given), one per pair.
   */
  function GetLastPriceEntries(entries: seq<Directive>, date: Option<Date>): (r: seq<Directive>)
    ensures var before := EntriesBefore(entries, date);
      && (forall i :: 0 <= i < |r| ==> r[i].Price? && r[i] in before)
      && (forall p :: HasPriceFor(before, p) <==> exists i :: 0 <= i < |r| && Recorded(r[i]) == p)
      && (forall i :: 0 <= i < |r| ==> IsLastPrice(before, r[i]))
      && (forall i, j :: 0 <= i < j < |r| ==> Recorded(r[i]) != Recorded(r[j]))
    ensures date.Some? ==> forall i :: 0 <= i < |r| ==> Before(r[i].date, date.value)
  {
    var before := EntriesBefore(entries, date);
    LastPerPair(before)
  }
}
