/**
 Account names: colon-separated hierarchical names such as `Assets:Bank:Checking`.
 A name is a plain string; its components are what splitting on the separator gives.
 */
module Account {
  import opened Wrappers
  import Strings

  /** The component separator. */
  const Sep: char := ':'

  /** The components of an account name (`account_name.split(sep)`). */
  function Split(name: string): (r: seq<string>)
    ensures |r| >= 1
    ensures Strings.SepFree(r, Sep)
  {
    Strings.Split(name, Sep)
  }

  /**
   The name made of the given components (`sep.join(components)`); splitting it
   gives back any non-empty list of separator-free components.
   */
  function Join(cs: seq<string>): (r: string)
    ensures |cs| >= 1 && Strings.SepFree(cs, Sep) ==> Split(r) == cs
  {
    if |cs| >= 1 && Strings.SepFree(cs, Sep) then
      Strings.SplitJoin(cs, Sep);
      Strings.Join(cs, Sep)
    else Strings.Join(cs, Sep)
  }

  /** Python's `xs[:n]`: a negative `n` counts from the end, an out-of-range one is clamped. */
  function Head<T>(xs: seq<T>, n: int): (r: seq<T>)
    ensures 0 <= n ==> r == xs[..if n < |xs| then n else |xs|]
    ensures n < 0 ==> r == xs[..if |xs| + n > 0 then |xs| + n else 0]
  {
    if n >= 0 then xs[..if n < |xs| then n else |xs|]
    else xs[..if |xs| + n > 0 then |xs| + n else 0]
  }

  /** Facts about dropping the last component of a non-empty name. */
  lemma {:induction false} DropLast(name: string)
    requires name != ""
    ensures var cs := Split(name);
      && |Join(cs[..|cs| - 1])| < |name|
      && (|cs| >= 2 ==> Split(Join(cs[..|cs| - 1])) == cs[..|cs| - 1])
      && (|cs| >= 2 ==> name == Join(cs[..|cs| - 1]) + [Sep] + cs[|cs| - 1])
      && (|cs| == 1 ==> cs[0] == name)
  {
    var cs := Split(name);
    var k := |cs|;
    Strings.JoinSplit(name, Sep);
    if k >= 2 {
      var init := cs[..k - 1];
      assert init + [cs[k - 1]] == cs;
      Strings.JoinSnoc(init, cs[k - 1], Sep);
      assert Strings.SepFree(init, Sep);
      Strings.SplitJoin(init, Sep);
    }
  }

  /** Facts about dropping the first component of a non-empty name. */
  lemma {:induction false} DropFirst(name: string)
    requires name != ""
    ensures var cs := Split(name);
      && (|cs| >= 2 ==> Split(Join(cs[1..])) == cs[1..])
      && (|cs| >= 2 ==> name == cs[0] + [Sep] + Join(cs[1..]))
  {
    var cs := Split(name);
    Strings.JoinSplit(name, Sep);
    if |cs| >= 2 {
      assert [cs[0]] + cs[1..] == cs;
      Strings.JoinCons(cs[0], cs[1..], Sep);
      assert Strings.SepFree(cs[1..], Sep);
      Strings.SplitJoin(cs[1..], Sep);
    }
  }

  /**
   The parent account: the name without its last component. The parent of a
   one-component name is the empty name, and the empty name has no parent.
   */
  function Parent(name: string): (r: Option<string>)
    ensures r.None? <==> name == ""
    ensures r.Some? && |Split(name)| == 1 ==> r.value == ""
    ensures r.Some? && |Split(name)| >= 2 ==> Split(r.value) == Split(name)[..|Split(name)| - 1]
    ensures r.Some? ==> |r.value| < |name|
  {
    if name == "" then None
    else
      var cs := Split(name);
      DropLast(name);
      Some(Join(cs[..|cs| - 1]))
  }

  /**
   The leaf: the last component, that is the longest separator-free suffix of
   the name; the empty name has none.
   */
  function Leaf(name: string): (r: Option<string>)
    ensures r.None? <==> name == ""
    ensures r.Some? ==> Sep !in r.value
    ensures r.Some? ==> |r.value| <= |name| && name[|name| - |r.value|..] == r.value
    ensures r.Some? ==> |r.value| == |name| || name[|name| - |r.value| - 1] == Sep
  {
    if name == "" then None
    else
      var cs := Split(name);
      DropLast(name);
      Some(cs[|cs| - 1])
  }

  /** For a name of two or more components, parent and leaf join back into the name. */
  lemma ParentLeafJoin(name: string)
    requires |Split(name)| >= 2
    ensures Parent(name).Some? && Leaf(name).Some?
    ensures Join([Parent(name).value, Leaf(name).value]) == name
  {
    assert name != "";
    DropLast(name);
    var cs := Split(name);
    Strings.JoinCons(Join(cs[..|cs| - 1]), [cs[|cs| - 1]], Sep);
  }

  /**
   The name without its root component; the empty name has none. A one-component
   name gives the empty name.
   */
  function SansRoot(name: string): (r: Option<string>)
    ensures r.None? <==> name == ""
    ensures r.Some? && |Split(name)| == 1 ==> r.value == ""
    ensures r.Some? && |Split(name)| >= 2 ==> Split(r.value) == Split(name)[1..]
    ensures r.Some? && |Split(name)| >= 2 ==> Split(name)[0] + [Sep] + r.value == name
  {
    if name == "" then None
    else
      DropFirst(name);
      Some(Join(Split(name)[1..]))
  }

  /**
   The first `n` components of the name (`split(name)[:n]` joined back): the whole
   name when `n` covers every component, and Python slice semantics for negative `n`.
   */
  function Root(n: int, name: string): (r: string)
    ensures n >= |Split(name)| ==> r == name
    ensures 1 <= n ==> Split(r) == Split(name)[..if n < |Split(name)| then n else |Split(name)|]
    ensures n == 0 ==> r == ""
    ensures n < 0 && |Split(name)| + n >= 1 ==> Split(r) == Split(name)[..|Split(name)| + n]
    ensures n < 0 && |Split(name)| + n <= 0 ==> r == ""
  {
    RootFacts(n, name);
    Join(Head(Split(name), n))
  }

  lemma RootFacts(n: int, name: string)
    ensures var cs := Split(name);
      var h := Head(cs, n);
      && (|h| >= 1 ==> Split(Join(h)) == h)
      && (n >= |cs| ==> Join(h) == name)
  {
    var cs := Split(name);
    var h := Head(cs, n);
    assert Strings.SepFree(h, Sep);
    if |h| >= 1 {
      Strings.SplitJoin(h, Sep);
    }
    if n >= |cs| {
      assert h == cs;
      Strings.JoinSplit(name, Sep);
    }
  }

  /** True when `p` is a prefix of `xs`. */
  predicate IsPrefix<T(==)>(p: seq<T>, xs: seq<T>)
  {
    |p| <= |xs| && xs[..|p|] == p
  }

  /** The longest common prefix of two component lists. */
  function CommonPrefix2(a: seq<string>, b: seq<string>): (r: seq<string>)
    ensures IsPrefix(r, a) && IsPrefix(r, b)
    ensures |r| == |a| || |r| == |b| || a[|r|] != b[|r|]
  {
    if |a| == 0 || |b| == 0 || a[0] != b[0] then []
    else
      var t := CommonPrefix2(a[1..], b[1..]);
      assert a == [a[0]] + a[1..] && b == [b[0]] + b[1..];
      [a[0]] + t
  }

  /**
   The longest common prefix of a list of component lists, empty for no lists:
   a prefix of every list, and no longer prefix is common to all of them.
   */
  function CommonPrefixOfAll(lists: seq<seq<string>>): (r: seq<string>)
    ensures forall i :: 0 <= i < |lists| ==> IsPrefix(r, lists[i])
    ensures |lists| == 0 ==> r == []
    ensures |lists| > 0 ==>
      || (exists i :: 0 <= i < |lists| && |lists[i]| == |r|)
      || (exists i, j :: 0 <= i < |lists| && 0 <= j < |lists| &&
            |r| < |lists[i]| && |r| < |lists[j]| && lists[i][|r|] != lists[j][|r|])
  {
    if |lists| == 0 then []
    else if |lists| == 1 then lists[0]
    else
      var p := CommonPrefixOfAll(lists[1..]);
      var r := CommonPrefix2(lists[0], p);
      assert forall i :: 1 <= i < |lists| ==> IsPrefix(p, lists[i]) by {
        forall i | 1 <= i < |lists|
          ensures IsPrefix(p, lists[i])
        {
          assert lists[i] == lists[1..][i - 1];
        }
      }
      if |r| == |lists[0]| then r
      else if |r| == |p| then
        assert r == p;
        if exists i :: 0 <= i < |lists[1..]| && |lists[1..][i]| == |p| then
          var i :| 0 <= i < |lists[1..]| && |lists[1..][i]| == |p|;
          assert |lists[i + 1]| == |r|;
          r
        else
          var i, j :| 0 <= i < |lists[1..]| && 0 <= j < |lists[1..]| &&
            |p| < |lists[1..][i]| && |p| < |lists[1..][j]| && lists[1..][i][|p|] != lists[1..][j][|p|];
          assert lists[i + 1][|r|] != lists[j + 1][|r|];
          r
      else
        assert lists[0][|r|] != p[|r|];
        assert lists[1][|r|] == p[|r|];
        r
  }

  /**
   The common parent of a list of account names (`commonprefix`): the join of the
   longest component-wise common prefix, and the empty name when there is none.
   */
  function CommonPrefix(names: seq<string>): (r: string)
    ensures var lists := seq(|names|, i requires 0 <= i < |names| => Split(names[i]));
      var cs := CommonPrefixOfAll(lists);
      && r == Join(cs)
      && (|cs| >= 1 ==> Split(r) == cs)
      && (|cs| >= 1 ==> forall i :: 0 <= i < |names| ==> IsPrefix(Split(r), Split(names[i])))
    ensures (exists i, j :: 0 <= i < |names| && 0 <= j < |names| && Split(names[i])[0] != Split(names[j])[0])
      ==> r == ""
  {
    CommonPrefixFacts(names);
    Join(CommonPrefixOfAll(seq(|names|, i requires 0 <= i < |names| => Split(names[i]))))
  }

  lemma CommonPrefixFacts(names: seq<string>)
    ensures var lists := seq(|names|, i requires 0 <= i < |names| => Split(names[i]));
      var cs := CommonPrefixOfAll(lists);
      && (|cs| >= 1 ==> Split(Join(cs)) == cs)
      && (forall i :: 0 <= i < |names| ==> IsPrefix(cs, Split(names[i])))
      && ((exists i, j :: 0 <= i < |names| && 0 <= j < |names| && Split(names[i])[0] != Split(names[j])[0])
          ==> |cs| == 0)
  {
    var lists := seq(|names|, i requires 0 <= i < |names| => Split(names[i]));
    var cs := CommonPrefixOfAll(lists);
    forall i | 0 <= i < |names|
      ensures IsPrefix(cs, Split(names[i]))
    {
      assert lists[i] == Split(names[i]);
    }
    if |cs| >= 1 {
      assert cs == lists[0][..|cs|];
      assert Strings.SepFree(cs, Sep);
      Strings.SplitJoin(cs, Sep);
    }
    if exists i, j :: 0 <= i < |names| && 0 <= j < |names| && Split(names[i])[0] != Split(names[j])[0] {
      var i, j :| 0 <= i < |names| && 0 <= j < |names| && Split(names[i])[0] != Split(names[j])[0];
      assert lists[i][0] != lists[j][0];
      assert |cs| == 0;
    }
  }

  /**
   The name itself followed by each successive parent (`parents`), stopping
   before the empty name. A name whose first component is non-empty yields one
   name per component, each one component shorter than the one before.
   */
  function Parents(name: string): (r: seq<string>)
    ensures |r| == 0 <==> name == ""
    ensures |r| > 0 ==> r[0] == name
    ensures forall i :: 0 <= i < |r| ==> r[i] != ""
    ensures forall i :: 0 <= i < |r| - 1 ==> Parent(r[i]) == Some(r[i + 1])
    ensures |r| > 0 ==> Parent(r[|r| - 1]) == Some("")
    ensures |r| <= |Split(name)|
    ensures name != "" && Split(name)[0] != "" ==>
      && |r| == |Split(name)|
      && forall i :: 0 <= i < |r| ==> Split(r[i]) == Split(name)[..|Split(name)| - i]
    decreases |name|
  {
    if name == "" then []
    else
      var p := Parent(name).value;
      ParentsStep(name, p, Parents(p));
      [name] + Parents(p)
  }

  /** The inductive step of `Parents`: prepending a name to its parent's chain. */
  lemma ParentsStep(name: string, p: string, rest: seq<string>)
    requires name != "" && Parent(name) == Some(p)
    requires |Split(name)| >= 2 && Split(name)[0] != "" && p != "" && Split(p)[0] != "" ==>
      && |rest| == |Split(p)|
      && forall i :: 0 <= i < |rest| ==> Split(rest[i]) == Split(p)[..|Split(p)| - i]
    ensures var r := [name] + rest; var cs := Split(name);
      && (cs[0] != "" && |cs| >= 2 ==> p != "" && Split(p)[0] != "" && |Split(p)| == |cs| - 1)
      && (cs[0] != "" && |cs| >= 2 ==>
            |r| == |cs| && forall i :: 1 <= i < |r| ==> Split(r[i]) == cs[..|cs| - i])
      && (|cs| == 1 ==> p == "")
  {
    var r := [name] + rest;
    var cs := Split(name);
    if cs[0] != "" && |cs| >= 2 {
      assert Split(p) == cs[..|cs| - 1];
      assert p != "";
      assert Split(p)[0] != "";
      forall i | 1 <= i < |r|
        ensures Split(r[i]) == cs[..|cs| - i]
      {
        assert r[i] == rest[i - 1];
        assert Split(rest[i - 1]) == Split(p)[..|Split(p)| - (i - 1)];
      }
    }
  }

  /** The index of the first separator in `s`, or `|s|` when there is none. */
  function SepIndex(s: string): (k: nat)
    ensures k <= |s|
    ensures forall j :: 0 <= j < k ==> s[j] != Sep
    ensures k < |s| ==> s[k] == Sep
    decreases |s|
  {
    if |s| == 0 || s[0] == Sep then 0 else 1 + SepIndex(s[1..])
  }

  /** The first component runs up to the first separator; the rest is the split of what follows it. */
  lemma {:induction false} SplitAtFirstSep(s: string)
    ensures Split(s)[0] == s[..SepIndex(s)]
    ensures SepIndex(s) == |s| ==> |Split(s)| == 1
    ensures SepIndex(s) < |s| ==> Split(s)[1..] == Split(s[SepIndex(s) + 1..])
    decreases |s|
  {
    if |s| > 0 {
      if s[0] == Sep {
        assert s == [Sep] + s[1..];
        SplitPrependSep(s[1..]);
      } else {
        var t := s[1..];
        assert s == [s[0]] + t;
        SplitAtFirstSep(t);
        SplitPrepend(s[0], t);
        if SepIndex(t) < |t| {
          assert t[SepIndex(t) + 1..] == s[SepIndex(s) + 1..];
        }
      }
    }
  }

  /** Position `i` starts a component: it is the start of the name or follows a separator. */
  predicate StartsComponent(name: string, i: int)
  {
    i == 0 || (0 < i <= |name| && name[i - 1] == Sep)
  }

  /** Position `j` ends a component: the end of the name or a separator. */
  predicate EndsComponent(name: string, j: int)
  {
    j == |name| || (0 <= j < |name| && name[j] == Sep)
  }

  /** `c` occurs in `name` at `i` delimited as a whole component. */
  predicate OccursAt(name: string, c: string, i: int)
  {
    0 <= i <= |name| - |c| && StartsComponent(name, i) && name[i..i + |c|] == c && EndsComponent(name, i + |c|)
  }

  /** `c` occurs as a component ending just before the name's final newline. */
  predicate OccursBeforeFinalNewline(name: string, c: string, i: int)
  {
    |name| >= 1 && name[|name| - 1] == '\n' && OccursAt(name[..|name| - 1], c, i) && i + |c| == |name| - 1
  }

  /**
   The search `(^|:)c(:|$)` for a literal `c` (one without regular-expression
   metacharacters). Python's `$` also matches just before a final newline.
   */
  predicate SearchesComponent(name: string, c: string)
  {
    || (exists i | 0 <= i <= |name| :: OccursAt(name, c, i))
    || (exists i | 0 <= i <= |name| :: OccursBeforeFinalNewline(name, c, i))
  }

  /** Occurrences after a separator at `k` are the occurrences in the text that follows it, shifted. */
  lemma OccursShift(name: string, c: string, k: int, i': int)
    requires 0 <= k < |name| && name[k] == Sep
    ensures OccursAt(name[k + 1..], c, i') <==> 0 <= i' && OccursAt(name, c, i' + k + 1)
  {
    var t := name[k + 1..];
    var i := i' + k + 1;
    if 0 <= i' <= |t| - |c| {
      assert name[i..i + |c|] == t[i'..i' + |c|];
      if i' > 0 {
        assert name[i - 1] == t[i' - 1];
      }
      if i + |c| < |name| {
        assert name[i + |c|] == t[i' + |c|];
      }
    }
  }

  /** An occurrence at the start of the name is exactly the first component. */
  lemma OccursAtStart(name: string, c: string)
    requires Sep !in c
    ensures OccursAt(name, c, 0) <==> c == Split(name)[0]
  {
    var k := SepIndex(name);
    SplitAtFirstSep(name);
  }

  /** A component of a name occurs in it, delimited as one. */
  lemma {:induction false} InSplitOccurs(name: string, c: string) returns (i: int)
    requires Sep !in c
    requires c in Split(name)
    ensures OccursAt(name, c, i)
    decreases |name|
  {
    var k := SepIndex(name);
    SplitAtFirstSep(name);
    OccursAtStart(name, c);
    var cs := Split(name);
    if c == cs[0] {
      i := 0;
    } else {
      assert k < |name|;
      var t := name[k + 1..];
      assert cs == [cs[0]] + Split(t);
      assert c in Split(t);
      var i' := InSplitOccurs(t, c);
      OccursShift(name, c, k, i');
      i := i' + k + 1;
    }
  }

  /** A separator-free string delimited as a component of a name is one of its components. */
  lemma {:induction false} OccursInSplit(name: string, c: string, i: int)
    requires Sep !in c
    requires OccursAt(name, c, i)
    ensures c in Split(name)
    decreases |name|
  {
    var k := SepIndex(name);
    SplitAtFirstSep(name);
    OccursAtStart(name, c);
    if i > 0 {
      assert name[i - 1] == Sep;
      assert k <= i - 1;
      var t := name[k + 1..];
      OccursShift(name, c, k, i - k - 1);
      OccursInSplit(t, c, i - k - 1);
      assert Split(name) == [Split(name)[0]] + Split(t);
    }
  }

  /** A separator-free string is a component of a name exactly when it occurs there delimited as one. */
  lemma InSplitIffOccurs(name: string, c: string)
    requires Sep !in c
    ensures c in Split(name) <==> exists i :: OccursAt(name, c, i)
  {
    if c in Split(name) {
      var i := InSplitOccurs(name, c);
    }
    if i :| OccursAt(name, c, i) {
      OccursInSplit(name, c, i);
    }
  }

  /**
   For a literal component without separators, the search succeeds exactly when
   it is one of the name's components (or of the name without a final newline).
   */
  lemma SearchesComponentIff(name: string, c: string)
    requires Sep !in c
    ensures SearchesComponent(name, c) <==>
      || c in Split(name)
      || (|name| >= 1 && name[|name| - 1] == '\n' && c in Split(name[..|name| - 1]))
  {
    InSplitIffOccurs(name, c);
    if |name| >= 1 && name[|name| - 1] == '\n' {
      var n' := name[..|name| - 1];
      InSplitIffOccurs(n', c);
      if i :| OccursAt(n', c, i) {
        if i + |c| < |n'| {
          assert name[i..i + |c|] == n'[i..i + |c|];
          assert OccursAt(name, c, i);
        } else {
          assert OccursBeforeFinalNewline(name, c, i);
        }
      }
    }
  }

  /**
   `has_component` for a literal component `c`: the search above, which for a
   separator-free `c` holds exactly when `c` is one of the name's components, or
   one of them once a final newline is dropped.
   */
  predicate HasComponent(name: string, c: string): (b: bool)
    ensures Sep !in c ==> (b <==>
      || c in Split(name)
      || (|name| >= 1 && name[|name| - 1] == '\n' && c in Split(name[..|name| - 1])))
  {
    if Sep in c then SearchesComponent(name, c)
    else
      SearchesComponentIff(name, c);
      SearchesComponent(name, c)
  }

  /** An upper-case ASCII letter, `[A-Z]`. */
  predicate IsUpper(ch: char)
  {
    'A' <= ch <= 'Z'
  }

  /** A character allowed after the first letter of a component, `[A-Za-z0-9\-]`. */
  predicate IsNameChar(ch: char)
  {
    'A' <= ch <= 'Z' || 'a' <= ch <= 'z' || '0' <= ch <= '9' || ch == '-'
  }

  /** States of a left-to-right matcher for the account-name regular expression. */
  datatype MatchState =
    | Start       // nothing read
    | FirstHead   // read the root's capital letter
    | FirstBody   // read the root's capital letter and at least one more character
    | AfterSep    // just read a separator
    | LaterBody   // inside a later component (accepting)
    | Dead        // the input cannot match

  /** One transition of the matcher. */
  function Step(q: MatchState, ch: char): MatchState
  {
    match q
    case Start => if IsUpper(ch) then FirstHead else Dead
    case FirstHead => if IsNameChar(ch) then FirstBody else Dead
    case FirstBody => if IsNameChar(ch) then FirstBody else if ch == Sep then AfterSep else Dead
    case AfterSep => if IsUpper(ch) then LaterBody else Dead
    case LaterBody => if IsNameChar(ch) then LaterBody else if ch == Sep then AfterSep else Dead
    case Dead => Dead
  }

  /** The state reached after reading all of `s` from state `q`. */
  function Run(q: MatchState, s: string): MatchState
    decreases |s|
  {
    if |s| == 0 then q else Run(Step(q, s[0]), s[1..])
  }

  /**
   A whole-string match of `[A-Z][A-Za-z0-9\-]+(?::[A-Z][A-Za-z0-9\-]*)+`.
   */
  predicate MatchesAccountRe(s: string)
  {
    Run(Start, s) == LaterBody
  }


  /** Every character of `s` is allowed inside a component. */
  predicate AllNameChars(s: string)
  {
    forall i :: 0 <= i < |s| ==> IsNameChar(s[i])
  }

  /** A component after the root: a capital letter, then name characters. */
  predicate IsLaterComponent(c: string)
  {
    |c| >= 1 && IsUpper(c[0]) && AllNameChars(c[1..])
  }

  /** The root component: a capital letter, then at least one name character. */
  predicate IsRootComponent(c: string)
  {
    |c| >= 2 && IsUpper(c[0]) && AllNameChars(c[1..])
  }

  /** Every component after the first is a valid later component. */
  predicate LaterComponents(cs: seq<string>)
  {
    forall i :: 1 <= i < |cs| ==> IsLaterComponent(cs[i])
  }

  /** The component-level reading of a valid account name. */
  predicate ValidComponents(cs: seq<string>)
  {
    |cs| >= 2 && IsRootComponent(cs[0]) && LaterComponents(cs)
  }

  lemma AllNameCons(ch: char, t: string)
    ensures AllNameChars([ch] + t) <==> IsNameChar(ch) && AllNameChars(t)
  {
    var s := [ch] + t;
    assert s[0] == ch;
    assert forall i :: 1 <= i < |s| ==> s[i] == t[i - 1];
    assert forall i :: 0 <= i < |t| ==> t[i] == s[i + 1];
  }

  /** Two component lists that differ only in their first component agree on the later ones. */
  lemma LaterSameTail(cs: seq<string>, us: seq<string>)
    requires |cs| >= 1 && |us| >= 1 && cs[1..] == us[1..]
    ensures LaterComponents(cs) <==> LaterComponents(us)
  {
    assert forall i :: 1 <= i < |cs| ==> cs[i] == cs[1..][i - 1];
    assert forall i :: 1 <= i < |us| ==> us[i] == us[1..][i - 1];
  }

  /** An empty first component shifts every later component down by one. */
  lemma LaterShift(us: seq<string>)
    requires |us| >= 1
    ensures LaterComponents([""] + us) <==> IsLaterComponent(us[0]) && LaterComponents(us)
  {
    var cs := [""] + us;
    assert forall i :: 1 <= i < |cs| ==> cs[i] == us[i - 1];
    if IsLaterComponent(us[0]) && LaterComponents(us) {
      forall i | 1 <= i < |cs|
        ensures IsLaterComponent(cs[i])
      {
        assert cs[i] == us[i - 1];
      }
    }
    if LaterComponents(cs) {
      assert IsLaterComponent(cs[1]);
      forall i | 1 <= i < |us|
        ensures IsLaterComponent(us[i])
      {
        assert us[i] == cs[i + 1];
      }
    }
  }

  lemma {:induction false} DeadStays(s: string)
    ensures Run(Dead, s) == Dead
    decreases |s|
  {
    if |s| > 0 {
      DeadStays(s[1..]);
    }
  }

  /** How the first component of a split grows when a non-separator is prepended. */
  lemma SplitPrepend(ch: char, t: string)
    requires ch != Sep
    ensures Split([ch] + t)[0] == [ch] + Split(t)[0]
    ensures Split([ch] + t)[1..] == Split(t)[1..]
  {
    assert ([ch] + t)[1..] == t;
  }

  /** Prepending a separator adds an empty first component. */
  lemma SplitPrependSep(t: string)
    ensures Split([Sep] + t) == [""] + Split(t)
  {
    assert ([Sep] + t)[1..] == t;
  }

  /** After a separator, the matcher accepts exactly when every component is a later component. */
  lemma {:induction false} AfterSepAccepts(t: string)
    ensures Run(AfterSep, t) == LaterBody <==> IsLaterComponent(Split(t)[0]) && LaterComponents(Split(t))
    decreases |t|, 1
  {
    if |t| == 0 {
      assert Split(t) == [""];
    } else if IsUpper(t[0]) {
      var u := t[1..];
      assert t == [t[0]] + u;
      SplitPrepend(t[0], u);
      InBodyAccepts(u);
      var cs := Split(t);
      var us := Split(u);
      assert cs[0][1..] == us[0];
      LaterSameTail(cs, us);
    } else {
      DeadStays(t[1..]);
      if t[0] == Sep {
        assert t == [Sep] + t[1..];
        SplitPrependSep(t[1..]);
      } else {
        assert t == [t[0]] + t[1..];
        SplitPrepend(t[0], t[1..]);
      }
    }
  }

  /** Inside a later component, the matcher accepts exactly when the rest is well formed. */
  lemma {:induction false} InBodyAccepts(s: string)
    ensures Run(LaterBody, s) == LaterBody <==> AllNameChars(Split(s)[0]) && LaterComponents(Split(s))
    decreases |s|, 0
  {
    if |s| == 0 {
      assert Split(s) == [""];
    } else if IsNameChar(s[0]) {
      var u := s[1..];
      assert s == [s[0]] + u;
      SplitPrepend(s[0], u);
      InBodyAccepts(u);
      var cs := Split(s);
      var us := Split(u);
      AllNameCons(s[0], us[0]);
      LaterSameTail(cs, us);
    } else if s[0] == Sep {
      var u := s[1..];
      assert s == [Sep] + u;
      SplitPrependSep(u);
      AfterSepAccepts(u);
      LaterShift(Split(u));
    } else {
      DeadStays(s[1..]);
      assert s == [s[0]] + s[1..];
      SplitPrepend(s[0], s[1..]);
      AllNameCons(s[0], Split(s[1..])[0]);
    }
  }

  /** Inside the root component, the matcher also needs at least one separator to come. */
  lemma {:induction false} InRootAccepts(s: string)
    ensures Run(FirstBody, s) == LaterBody <==>
      |Split(s)| >= 2 && AllNameChars(Split(s)[0]) && LaterComponents(Split(s))
    decreases |s|
  {
    if |s| == 0 {
      assert Split(s) == [""];
    } else if IsNameChar(s[0]) {
      var u := s[1..];
      assert s == [s[0]] + u;
      SplitPrepend(s[0], u);
      InRootAccepts(u);
      var cs := Split(s);
      var us := Split(u);
      assert |cs| == |us|;
      AllNameCons(s[0], us[0]);
      LaterSameTail(cs, us);
    } else if s[0] == Sep {
      var u := s[1..];
      assert s == [Sep] + u;
      SplitPrependSep(u);
      AfterSepAccepts(u);
      LaterShift(Split(u));
    } else {
      DeadStays(s[1..]);
      assert s == [s[0]] + s[1..];
      SplitPrepend(s[0], s[1..]);
      AllNameCons(s[0], Split(s[1..])[0]);
    }
  }

  /**
   The regular expression accepts exactly the names of two or more components
   whose root is a capital letter and at least one name character, and whose
   later components are each a capital letter and any number of name characters.
   */
  lemma MatchesIffValidComponents(s: string)
    ensures MatchesAccountRe(s) <==> ValidComponents(Split(s))
  {
    if |s| >= 2 && IsUpper(s[0]) && IsNameChar(s[1]) {
      var u := s[2..];
      assert s == [s[0]] + ([s[1]] + u);
      SplitPrepend(s[1], u);
      SplitPrepend(s[0], [s[1]] + u);
      InRootAccepts(u);
      var cs := Split(s);
      var us := Split(u);
      assert s[1..][1..] == u;
      assert Run(Start, s) == Run(FirstBody, u);
      assert cs[0] == [s[0]] + ([s[1]] + us[0]);
      assert cs[0][1..] == [s[1]] + us[0];
      AllNameCons(s[1], us[0]);
      LaterSameTail(cs, us);
    } else if |s| >= 1 && IsUpper(s[0]) {
      if |s| >= 2 {
        DeadStays(s[2..]);
        assert s[1..][1..] == s[2..];
        assert Run(Start, s) == Run(Dead, s[2..]);
        assert s == [s[0]] + s[1..];
        SplitPrepend(s[0], s[1..]);
        if s[1] == Sep {
          assert s[1..] == [Sep] + s[2..];
          SplitPrependSep(s[2..]);
          assert Split(s)[0] == [s[0]];
        } else {
          assert s[1..] == [s[1]] + s[2..];
          SplitPrepend(s[1], s[2..]);
          var c0 := Split(s)[0];
          assert c0 == [s[0]] + ([s[1]] + Split(s[2..])[0]);
          assert c0[1..] == [s[1]] + Split(s[2..])[0];
          AllNameCons(s[1], Split(s[2..])[0]);
          assert !IsRootComponent(c0);
        }
      } else {
        Strings.SplitNoSep(s, Sep);
        assert Run(Start, s) == Run(FirstHead, s[1..]);
        assert s[1..] == [];
      }
    } else if |s| >= 1 {
      DeadStays(s[1..]);
      if s[0] == Sep {
        assert s == [Sep] + s[1..];
        SplitPrependSep(s[1..]);
      } else {
        assert s == [s[0]] + s[1..];
        SplitPrepend(s[0], s[1..]);
        assert Split(s)[0][0] == s[0];
      }
    } else {
      assert Split(s) == [""];
    }
  }

  /**
   `is_valid`: `re.match` with the pattern followed by `$`. Python's `$` also
   matches just before a final newline, so one trailing newline is accepted: a
   name, with at most one final newline removed, is valid exactly when its
   components are.
   */
  predicate IsValid(s: string): (b: bool)
    ensures b <==>
      || ValidComponents(Split(s))
      || (|s| >= 1 && s[|s| - 1] == '\n' && ValidComponents(Split(s[..|s| - 1])))
  {
    MatchesIffValidComponents(s);
    if |s| >= 1 then
      MatchesIffValidComponents(s[..|s| - 1]);
      MatchesAccountRe(s) || (s[|s| - 1] == '\n' && MatchesAccountRe(s[..|s| - 1]))
    else MatchesAccountRe(s)
  }
}
