/**
 Getters: folds over a list of directives that gather the accounts, account
 components, tags, payees, dates, years and open/close directives they reference.
 */
module Getters {
  import opened Wrappers
  import opened Dates
  import opened Data
  import Account
  import Strings

  /** The accounts one directive references, by kind (the `GetAccounts` dispatch). */
  function AccountsOf(e: Directive): set<AccountName>
  {
    match e
    case Transaction(_, _, _, _, _, _, postings) => set i | 0 <= i < |postings| :: postings[i].account
    case Pad(_, account, accountPad) => {account, accountPad}
    case Open(_, account, _) => {account}
    case Close(_, account) => {account}
    case Balance(_, account, _) => {account}
    case Note(_, account, _) => {account}
    case Document(_, account, _) => {account}
    case Event(_, _, _) => {}
    case Price(_, _, _) => {}
  }

  /**
   The reading of "directive `e` references account `a`": a posting account of a
   transaction, either account of a pad, the account of the single-account kinds,
   and nothing for events and prices.
   */
  predicate References(e: Directive, a: AccountName)
  {
    || (e.Transaction? && exists p :: p in e.postings && p.account == a)
    || (e.Pad? && (a == e.account || a == e.accountPad))
    || ((e.Open? || e.Close? || e.Balance? || e.Note? || e.Document?) && a == e.account)
  }

  /** The per-kind dispatch yields exactly the referenced accounts. */
  lemma AccountsOfIff(e: Directive, a: AccountName)
    ensures a in AccountsOf(e) <==> References(e, a)
  {
    if e.Transaction? && References(e, a) {
      var p :| p in e.postings && p.account == a;
      var i :| 0 <= i < |e.postings| && e.postings[i] == p;
      assert e.postings[i].account == a;
    }
  }

  /** The loop of `GetAccounts.__call__`: add each entry's accounts to those gathered so far. */
  function GatherAccounts(entries: seq<Directive>, acc: set<AccountName>): (r: set<AccountName>)
    ensures forall a :: a in r <==> a in acc || exists i :: 0 <= i < |entries| && a in AccountsOf(entries[i])
    decreases |entries|
  {
    if |entries| == 0 then acc
    else
      var r := GatherAccounts(entries[1..], acc + AccountsOf(entries[0]));
      assert forall i :: 1 <= i < |entries| ==> entries[i] == entries[1..][i - 1];
      assert forall a, i :: 0 <= i < |entries[1..]| && a in AccountsOf(entries[1..][i]) ==>
        a in AccountsOf(entries[i + 1]);
      r
  }

  /** `get_accounts`: every account referenced by some entry. */
  function GetAccounts(entries: seq<Directive>): (r: set<AccountName>)
    ensures forall a :: a in r <==> exists i :: 0 <= i < |entries| && References(entries[i], a)
  {
    var r := GatherAccounts(entries, {});
    forall a
      ensures a in r <==> exists i :: 0 <= i < |entries| && References(entries[i], a)
    {
      forall i | 0 <= i < |entries| {
        AccountsOfIff(entries[i], a);
      }
    }
    r
  }

  /** `get_account_components`: every component of every referenced account, and nothing else. */
  function GetAccountComponents(entries: seq<Directive>): (r: set<string>)
    ensures forall c :: c in r <==>
      exists i, a :: 0 <= i < |entries| && References(entries[i], a) && c in Account.Split(a)
  {
    var accounts := GetAccounts(entries);
    set a, c | a in accounts && c in Account.Split(a) :: c
  }

  /** `get_all_tags`: the union of the tag sets of the transactions. */
  function GetAllTags(entries: seq<Directive>): (r: set<string>)
    ensures forall t :: t in r <==> exists i :: 0 <= i < |entries| && entries[i].Transaction? && t in entries[i].tags
    decreases |entries|
  {
    if |entries| == 0 then {}
    else
      var rest := GetAllTags(entries[1..]);
      assert forall i :: 1 <= i < |entries| ==> entries[i] == entries[1..][i - 1];
      (if entries[0].Transaction? then entries[0].tags else {}) + rest
  }

  /** `get_all_payees`: the payees of the transactions, absent payees left out. */
  function GetAllPayees(entries: seq<Directive>): (r: set<string>)
    ensures forall p :: p in r <==> exists i :: 0 <= i < |entries| && entries[i].Transaction? && entries[i].payee == Some(p)
    decreases |entries|
  {
    if |entries| == 0 then {}
    else
      var rest := GetAllPayees(entries[1..]);
      assert forall i :: 1 <= i < |entries| ==> entries[i] == entries[1..][i - 1];
      (if entries[0].Transaction? && entries[0].payee.Some? then {entries[0].payee.value} else {}) + rest
  }

  /**
   The component the level counter records for a name at level `n` (0 is the root),
   if any: a name with `n` or fewer components is skipped, and a negative `n`
   indexes from the end, as `components[n]` does (so -1 is the leaf).
   */
  function LevelOf(name: AccountName, n: int): Option<string>
  {
    var cs := Account.Split(name);
    if 0 <= n < |cs| then Some(cs[n])
    else if n < 0 && -n <= |cs| then Some(cs[|cs| + n])
    else None
  }

  /**
   A name on which `components[n]` raises IndexError: the guard `n < len(components)`
   always passes for a negative `n`, which then reaches past the first component.
   */
  predicate TooShort(name: AccountName, n: int)
  {
    n < 0 && |Account.Split(name)| < -n
  }

  /** At level -1 the counter records the leaf of every non-empty name. */
  lemma LevelMinusOneIsLeaf(name: AccountName)
    requires name != ""
    ensures !TooShort(name, -1)
    ensures LevelOf(name, -1) == Account.Leaf(name)
  {
  }

  /** The IndexError of `get_leveln_parent_accounts`, with a name that raises it. */
  datatype LevelError = LevelIndexError(name: AccountName)

  /** The first name that is too short for level `n`, if any. */
  function FindTooShort(names: seq<AccountName>, n: int): (r: Option<AccountName>)
    ensures r.None? <==> forall a :: a in names ==> !TooShort(a, n)
    ensures r.Some? ==> r.value in names && TooShort(r.value, n)
    decreases |names|
  {
    if |names| == 0 then None
    else if TooShort(names[0], n) then Some(names[0])
    else
      assert forall a :: a in names <==> a == names[0] || a in names[1..];
      FindTooShort(names[1..], n)
  }

  /** The distinct names whose level-`n` component is `x`. */
  ghost function NamesAtLevel(names: seq<AccountName>, n: int, x: string): set<AccountName>
  {
    set a | a in names && LevelOf(a, n) == Some(x)
  }

  /** The names without repetitions, first occurrences kept (stands for `set(names)`). */
  function Distinct(names: seq<AccountName>): (r: seq<AccountName>)
    ensures forall a :: a in r <==> a in names
    ensures forall i, j :: 0 <= i < j < |r| ==> r[i] != r[j]
    decreases |names|
  {
    if |names| == 0 then []
    else
      var rest := Distinct(names[1..]);
      if names[0] in rest then rest else [names[0]] + rest
  }

  /** How many of `ds` have `x` as level-`n` component (the `leveldict` counter). */
  function CountAtLevel(ds: seq<AccountName>, n: int, x: string): nat
    decreases |ds|
  {
    if |ds| == 0 then 0
    else (if LevelOf(ds[0], n) == Some(x) then 1 else 0) + CountAtLevel(ds[1..], n, x)
  }

  /** Over a duplicate-free list, the counter is the number of distinct names at that level. */
  lemma {:induction false} CountIsCardinality(ds: seq<AccountName>, n: int, x: string)
    requires forall i, j :: 0 <= i < j < |ds| ==> ds[i] != ds[j]
    ensures CountAtLevel(ds, n, x) == |set a | a in ds && LevelOf(a, n) == Some(x)|
    decreases |ds|
  {
    if |ds| > 0 {
      var rest := ds[1..];
      assert forall i, j :: 0 <= i < j < |rest| ==> rest[i] != rest[j] by {
        forall i, j | 0 <= i < j < |rest|
          ensures rest[i] != rest[j]
        {
          assert rest[i] == ds[i + 1] && rest[j] == ds[j + 1];
        }
      }
      CountIsCardinality(rest, n, x);
      var whole := set a | a in ds && LevelOf(a, n) == Some(x);
      var tail := set a | a in rest && LevelOf(a, n) == Some(x);
      assert ds[0] !in rest;
      if LevelOf(ds[0], n) == Some(x) {
        assert whole == tail + {ds[0]};
      } else {
        assert whole == tail;
      }
    }
  }

  /** The level-`n` components of the names, with repetitions. */
  function Components(ds: seq<AccountName>, n: int): (r: seq<string>)
    ensures forall x :: x in r <==> exists a :: a in ds && LevelOf(a, n) == Some(x)
    decreases |ds|
  {
    if |ds| == 0 then []
    else
      var rest := Components(ds[1..], n);
      assert forall a :: a in ds[1..] ==> a in ds;
      (if LevelOf(ds[0], n).Some? then [LevelOf(ds[0], n).value] else []) + rest
  }

  /** Keep the components counted more than `nrepeats` times. */
  function Frequent(xs: seq<string>, ds: seq<AccountName>, n: int, nrepeats: int): (r: seq<string>)
    ensures forall x :: x in r <==> x in xs && CountAtLevel(ds, n, x) > nrepeats
    decreases |xs|
  {
    if |xs| == 0 then []
    else
      (if CountAtLevel(ds, n, xs[0]) > nrepeats then [xs[0]] else []) + Frequent(xs[1..], ds, n, nrepeats)
  }

  /**
   `get_leveln_parent_accounts`: the level-`n` components, sorted and each once,
   that occur in more than `nrepeats` distinct names; names with `n` or fewer
   components contribute nothing. A negative `n` counts from the end, and fails
   with IndexError when some name has fewer than `-n` components.
   */
  function GetLevelnParentAccounts(names: seq<AccountName>, n: int, nrepeats: int): (r: Result<seq<string>, LevelError>)
    ensures r.Err? <==> exists a :: a in names && TooShort(a, n)
    ensures r.Err? ==> r.error.name in names && TooShort(r.error.name, n)
    ensures r.Ok? ==> Strings.StrictlySorted(r.value)
    ensures r.Ok? ==> forall x :: x in r.value <==> |NamesAtLevel(names, n, x)| > 0 && |NamesAtLevel(names, n, x)| > nrepeats
  {
    match FindTooShort(names, n)
    case Some(a) => Err(LevelIndexError(a))
    case None =>
      var ds := Distinct(names);
      var levels := Strings.SortUnique(Frequent(Components(ds, n), ds, n, nrepeats));
      forall x
        ensures x in levels <==> |NamesAtLevel(names, n, x)| > 0 && |NamesAtLevel(names, n, x)| > nrepeats
      {
        CountIsCardinality(ds, n, x);
        var s := set a | a in ds && LevelOf(a, n) == Some(x);
        assert s == NamesAtLevel(names, n, x);
        if exists a :: a in ds && LevelOf(a, n) == Some(x) {
          var a :| a in ds && LevelOf(a, n) == Some(x);
          assert a in s;
        }
        if |s| > 0 {
          var a :| a in s;
        }
      }
      Ok(levels)
  }

  /**
   `get_min_max_dates`: absent for no entries, otherwise the dates of the first and
   last entries, which bound every entry's date when the entries are chronological.
   */
  function GetMinMaxDates(entries: seq<Directive>): (r: (Option<Date>, Option<Date>))
    ensures |entries| == 0 <==> r == (None, None)
    ensures |entries| > 0 ==> r.0.Some? && r.1.Some?
    ensures |entries| > 0 ==> r.0.value == entries[0].date && r.1.value == entries[|entries| - 1].date
    ensures |entries| > 0 && Chronological(entries) ==>
      forall i :: 0 <= i < |entries| ==> NotAfter(r.0.value, entries[i].date) && NotAfter(entries[i].date, r.1.value)
  {
    if |entries| == 0 then (None, None)
    else (Some(entries[0].date), Some(entries[|entries| - 1].date))
  }

  /** The year of every entry, in order. */
  function Years(entries: seq<Directive>): (r: seq<int>)
    ensures |r| == |entries|
    ensures forall i :: 0 <= i < |entries| ==> r[i] == entries[i].date.year
  {
    seq(|entries|, i requires 0 <= i < |entries| => entries[i].date.year)
  }

  /** Among the first `n` years, each value occupies one contiguous run. */
  predicate Contiguous(ys: seq<int>, n: int)
    requires n <= |ys|
  {
    forall i, j, k :: 0 <= i < j < k < n && ys[i] == ys[k] ==> ys[j] == ys[i]
  }

  /** Every year's entries form one contiguous run. */
  predicate YearsGrouped(entries: seq<Directive>)
  {
    Contiguous(Years(entries), |entries|)
  }

  /** `years` holds exactly the values among the first `n` of `ys`. */
  ghost predicate Covers(ys: seq<int>, n: int, years: seq<int>)
    requires n <= |ys|
  {
    forall y :: y in years <==> exists i :: 0 <= i < n && ys[i] == y
  }

  /** No value occurs twice in `years`. */
  ghost predicate Unrepeated(years: seq<int>)
  {
    forall p, q :: 0 <= p < q < |years| ==> years[p] != years[q]
  }

  /** Among the first `n` of `ys`, every occurrence of an earlier-listed year precedes every occurrence of a later one. */
  ghost predicate FirstSeenOrder(ys: seq<int>, n: int, years: seq<int>)
    requires n <= |ys|
  {
    forall p, q, i, j ::
      0 <= p < q < |years| && 0 <= i < n && 0 <= j < n && ys[i] == years[p] && ys[j] == years[q] ==> i < j
  }

  /** `years` lists the values among the first `n` of `ys`, each once, in order of first appearance. */
  ghost predicate Listing(ys: seq<int>, n: int, years: seq<int>)
    requires n <= |ys|
  {
    Covers(ys, n, years) && Unrepeated(years) && FirstSeenOrder(ys, n, years)
  }

  /** A value not seen before keeps the runs contiguous. */
  lemma ContiguousNew(ys: seq<int>, n: int)
    requires 0 <= n < |ys| && Contiguous(ys, n)
    requires forall i :: 0 <= i < n ==> ys[i] != ys[n]
    ensures Contiguous(ys, n + 1)
  {
  }

  /** A value equal to the one before it extends that run. */
  lemma ContiguousSame(ys: seq<int>, n: int)
    requires 0 < n < |ys| && ys[n] == ys[n - 1] && Contiguous(ys, n)
    ensures Contiguous(ys, n + 1)
  {
    forall i, j, k | 0 <= i < j < k < n + 1 && ys[i] == ys[k]
      ensures ys[j] == ys[i]
    {
      if k == n && j < n - 1 {
        assert ys[i] == ys[n - 1];
      }
    }
  }

  /** A value not seen before is listed last. */
  lemma ListNew(ys: seq<int>, n: int, years: seq<int>)
    requires 0 <= n < |ys| && Listing(ys, n, years)
    requires ys[n] !in years
    ensures Listing(ys, n + 1, years + [ys[n]])
  {
    var ext := years + [ys[n]];
    forall y
      ensures y in ext <==> exists i :: 0 <= i < n + 1 && ys[i] == y
    {
      if y == ys[n] {
        assert ys[n] == y;
      }
    }
    forall p, q, i, j | 0 <= p < q < |ext| && 0 <= i < n + 1 && 0 <= j < n + 1 && ys[i] == ext[p] && ys[j] == ext[q]
      ensures i < j
    {
      if q == |years| {
        assert ys[i] in years;
      } else {
        assert ys[j] in years;
      }
    }
  }

  /** A value equal to the one before it, which was listed last, changes nothing in the listing. */
  lemma ListSame(ys: seq<int>, n: int, years: seq<int>)
    requires 0 < n < |ys| && ys[n] == ys[n - 1]
    requires |years| > 0 && years[|years| - 1] == ys[n - 1]
    requires Listing(ys, n, years)
    ensures Listing(ys, n + 1, years)
  {
    forall y
      ensures y in years <==> exists i :: 0 <= i < n + 1 && ys[i] == y
    {
      if y == ys[n] {
        assert ys[n - 1] == y;
      }
    }
    assert forall p :: 0 <= p < |years| - 1 ==> years[p] != ys[n];
  }

  /** The listing of all the entries' years, restated over the entries themselves. */
  lemma ListedAll(entries: seq<Directive>, years: seq<int>)
    requires Listing(Years(entries), |entries|, years)
    ensures forall y :: y in years <==> exists i :: 0 <= i < |entries| && entries[i].date.year == y
    ensures forall p, q, i, j ::
      (0 <= p < q < |years| && 0 <= i < |entries| && 0 <= j < |entries| &&
       entries[i].date.year == years[p] && entries[j].date.year == years[q]) ==> i < j
  {
    var ys := Years(entries);
    forall y
      ensures y in years <==> exists i :: 0 <= i < |entries| && entries[i].date.year == y
    {
      if y in years {
        var i :| 0 <= i < |entries| && ys[i] == y;
        assert entries[i].date.year == y;
      }
    }
  }

  /** The assertion `get_active_years` makes when a year comes back after another one. */
  datatype YearsError = YearReappears(year: int)

  /**
   The loop of `get_active_years` over the entries' years: each year once, in order
   of first appearance, or the failed assertion when a year comes back.
   */
  method ListYears(ys: seq<int>) returns (r: Result<seq<int>, YearsError>)
    ensures r.Ok? <==> Contiguous(ys, |ys|)
    ensures r.Ok? ==> Listing(ys, |ys|, r.value)
  {
    var years: seq<int> := [];
    var seen: set<int> := {};
    var prev: Option<int> := None;
    var n := 0;
    while n < |ys|
      invariant 0 <= n <= |ys|
      invariant Contiguous(ys, n) && Listing(ys, n, years)
      invariant forall y :: y in seen <==> y in years
      invariant n == 0 <==> prev.None?
      invariant n > 0 ==> prev == Some(ys[n - 1]) && |years| > 0 && years[|years| - 1] == ys[n - 1]
    {
      var year := ys[n];
      if prev != Some(year) {
        if year in seen {
          var i :| 0 <= i < n && ys[i] == year;
          assert ys[n - 1] != ys[i];
          return Err(YearReappears(year));
        }
        ContiguousNew(ys, n);
        ListNew(ys, n, years);
        prev := Some(year);
        seen := seen + {year};
        years := years + [year];
      } else {
        ContiguousSame(ys, n);
        ListSame(ys, n, years);
      }
      n := n + 1;
    }
    return Ok(years);
  }

  /**
   `get_active_years`: each year once, in order of first appearance; it fails its
   assertion exactly when a year reappears after a different year.
   */
  method GetActiveYears(entries: seq<Directive>) returns (r: Result<seq<int>, YearsError>)
    ensures r.Ok? <==> YearsGrouped(entries)
    ensures r.Ok? ==> forall y :: y in r.value <==> exists i :: 0 <= i < |entries| && entries[i].date.year == y
    ensures r.Ok? ==> forall p, q :: 0 <= p < q < |r.value| ==> r.value[p] != r.value[q]
    ensures r.Ok? ==> forall p, q, i, j ::
      (0 <= p < q < |r.value| && 0 <= i < |entries| && 0 <= j < |entries| &&
       entries[i].date.year == r.value[p] && entries[j].date.year == r.value[q]) ==> i < j
  {
    r := ListYears(Years(entries));
    if r.Ok? {
      ListedAll(entries, r.value);
    }
  }

  /** The two slots `get_account_open_close` keeps per account. */
  datatype Slot = OpenSlot | CloseSlot

  /** `e` is the kind of directive that fills `slot` for account `a`. */
  predicate Fills(slot: Slot, a: AccountName, e: Directive)
  {
    match slot
    case OpenSlot => e.Open? && e.account == a
    case CloseSlot => e.Close? && e.account == a
  }

  /** The last entry that fills `slot` for account `a`, searching backwards from the end. */
  function LastFilling(entries: seq<Directive>, slot: Slot, a: AccountName): (r: Option<Directive>)
    ensures r.None? <==> forall i :: 0 <= i < |entries| ==> !Fills(slot, a, entries[i])
    ensures r.Some? ==> exists i :: (0 <= i < |entries| && entries[i] == r.value && Fills(slot, a, r.value) &&
      forall j :: i < j < |entries| ==> !Fills(slot, a, entries[j]))
    decreases |entries|
  {
    if |entries| == 0 then None
    else if Fills(slot, a, entries[|entries| - 1]) then Some(entries[|entries| - 1])
    else
      var r := LastFilling(entries[..|entries| - 1], slot, a);
      assert forall i :: 0 <= i < |entries| - 1 ==> entries[..|entries| - 1][i] == entries[i];
      r
  }

  /** The pair `[open, close]` kept per account. */
  type OpenClose = (Option<Directive>, Option<Directive>)

  /** The pair kept for `a`, with the `[None, None]` default of the source's `defaultdict`. */
  function SlotsOf(m: map<AccountName, OpenClose>, a: AccountName): OpenClose
  {
    if a in m then m[a] else (None, None)
  }

  /** One step of the loop of `get_account_open_close`: an Open or Close overwrites its slot. */
  function OpenCloseStep(acc: map<AccountName, OpenClose>, e: Directive): map<AccountName, OpenClose>
  {
    if e.Open? then acc[e.account := (Some(e), SlotsOf(acc, e.account).1)]
    else if e.Close? then acc[e.account := (SlotsOf(acc, e.account).0, Some(e))]
    else acc
  }

  function OpenCloseFold(entries: seq<Directive>, acc: map<AccountName, OpenClose>): map<AccountName, OpenClose>
    decreases |entries|
  {
    if |entries| == 0 then acc else OpenCloseFold(entries[1..], OpenCloseStep(acc, entries[0]))
  }

  /** The last match in `x :: rest` is the last match in `rest`, or `x` when `rest` has none. */
  lemma {:induction false} LastFillingCons(entries: seq<Directive>, slot: Slot, a: AccountName)
    requires |entries| > 0
    ensures LastFilling(entries, slot, a) ==
      if LastFilling(entries[1..], slot, a).Some? then LastFilling(entries[1..], slot, a)
      else if Fills(slot, a, entries[0]) then Some(entries[0]) else None
    decreases |entries|
  {
    var n := |entries|;
    if n > 1 {
      assert entries[1..][n - 2] == entries[n - 1];
      if !Fills(slot, a, entries[n - 1]) {
        var init := entries[..n - 1];
        LastFillingCons(init, slot, a);
        assert init[1..] == entries[1..][..n - 2];
        assert init[0] == entries[0];
      }
    }
  }

  /** The fold, account by account, against a backward search for the last filling directive. */
  lemma {:induction false} OpenCloseFoldSpec(entries: seq<Directive>, acc: map<AccountName, OpenClose>, a: AccountName)
    ensures var r := OpenCloseFold(entries, acc);
      var opens := LastFilling(entries, OpenSlot, a);
      var closes := LastFilling(entries, CloseSlot, a);
      && (a in r <==> a in acc || opens.Some? || closes.Some?)
      && SlotsOf(r, a).0 == (if opens.Some? then opens else SlotsOf(acc, a).0)
      && SlotsOf(r, a).1 == (if closes.Some? then closes else SlotsOf(acc, a).1)
    decreases |entries|
  {
    if |entries| > 0 {
      OpenCloseFoldSpec(entries[1..], OpenCloseStep(acc, entries[0]), a);
      LastFillingCons(entries, OpenSlot, a);
      LastFillingCons(entries, CloseSlot, a);
    }
  }

  /**
   `get_account_open_close`: for every account that has an Open or a Close, the
   last Open and the last Close in input order, absent where there is none.
   */
  function GetAccountOpenClose(entries: seq<Directive>): (r: map<AccountName, OpenClose>)
    ensures forall a :: a in r <==> exists i :: 0 <= i < |entries| && (Fills(OpenSlot, a, entries[i]) || Fills(CloseSlot, a, entries[i]))
    ensures forall a :: a in r ==> r[a] == (LastFilling(entries, OpenSlot, a), LastFilling(entries, CloseSlot, a))
  {
    var r := OpenCloseFold(entries, map[]);
    forall a
      ensures a in r <==> exists i :: 0 <= i < |entries| && (Fills(OpenSlot, a, entries[i]) || Fills(CloseSlot, a, entries[i]))
      ensures a in r ==> r[a] == (LastFilling(entries, OpenSlot, a), LastFilling(entries, CloseSlot, a))
    {
      OpenCloseFoldSpec(entries, map[], a);
    }
    r
  }
}
