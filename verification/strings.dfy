/**
 Python's `str.split(sep)` and `sep.join(pieces)` for a one-character separator,
 with the round-trip laws the account-name and currency-pair code relies on.
 */
module Strings {

  /**
   The pieces of `s` between occurrences of `sep`, as `s.split(sep)` returns them:
   there is always at least one piece, and no piece contains the separator.
   */
  function Split(s: string, sep: char): (r: seq<string>)
    ensures |r| >= 1
    ensures forall i :: 0 <= i < |r| ==> sep !in r[i]
    decreases |s|
  {
    if |s| == 0 then [""]
    else
      var rest := Split(s[1..], sep);
      if s[0] == sep then [""] + rest
      else [[s[0]] + rest[0]] + rest[1..]
  }

  /** `sep.join(cs)`: the pieces with one separator between neighbours; empty for no pieces. */
  function Join(cs: seq<string>, sep: char): string
  {
    if |cs| == 0 then ""
    else if |cs| == 1 then cs[0]
    else cs[0] + [sep] + Join(cs[1..], sep)
  }

  /** True when no piece contains the separator. */
  predicate SepFree(cs: seq<string>, sep: char)
  {
    forall i :: 0 <= i < |cs| ==> sep !in cs[i]
  }

  /** True when `p` is a prefix of `s`. */
  predicate StartsWith<T(==)>(s: seq<T>, p: seq<T>)
  {
    |p| <= |s| && s[..|p|] == p
  }

  /** Splitting a separator-free string gives the string itself. */
  lemma {:induction false} SplitNoSep(c: string, sep: char)
    requires sep !in c
    ensures Split(c, sep) == [c]
    decreases |c|
  {
    if |c| > 0 {
      SplitNoSep(c[1..], sep);
      assert [c[0]] + c[1..] == c;
    }
  }

  /** Splitting `c + sep + t` for a separator-free `c` yields `c` followed by the pieces of `t`. */
  lemma {:induction false} SplitCons(c: string, sep: char, t: string)
    requires sep !in c
    ensures Split(c + [sep] + t, sep) == [c] + Split(t, sep)
    decreases |c|
  {
    var s := c + [sep] + t;
    if |c| == 0 {
      assert s[1..] == t;
    } else {
      assert s[1..] == c[1..] + [sep] + t;
      SplitCons(c[1..], sep, t);
      assert [c[0]] + c[1..] == c;
    }
  }

  /** Joining then splitting separator-free pieces gives the pieces back. */
  lemma {:induction false} SplitJoin(cs: seq<string>, sep: char)
    requires |cs| >= 1
    requires SepFree(cs, sep)
    ensures Split(Join(cs, sep), sep) == cs
    decreases |cs|
  {
    if |cs| == 1 {
      SplitNoSep(cs[0], sep);
    } else {
      SplitJoin(cs[1..], sep);
      SplitCons(cs[0], sep, Join(cs[1..], sep));
      assert [cs[0]] + cs[1..] == cs;
    }
  }

  /** Splitting then joining gives the string back. */
  lemma {:induction false} JoinSplit(s: string, sep: char)
    ensures Join(Split(s, sep), sep) == s
    decreases |s|
  {
    if |s| > 0 {
      var rest := Split(s[1..], sep);
      JoinSplit(s[1..], sep);
      if s[0] == sep {
        assert [""] + rest == Split(s, sep);
        JoinCons("", rest, sep);
        assert [sep] + s[1..] == s;
      } else {
        var cs := [[s[0]] + rest[0]] + rest[1..];
        if |rest| == 1 {
          assert Join(cs, sep) == [s[0]] + rest[0];
        } else {
          assert rest == [rest[0]] + rest[1..];
          JoinCons(rest[0], rest[1..], sep);
          JoinCons([s[0]] + rest[0], rest[1..], sep);
        }
        assert [s[0]] + s[1..] == s;
      }
    }
  }

  /** Joining a non-empty tail after a first piece inserts one separator. */
  lemma JoinCons(c: string, cs: seq<string>, sep: char)
    requires |cs| >= 1
    ensures Join([c] + cs, sep) == c + [sep] + Join(cs, sep)
  {
    assert ([c] + cs)[1..] == cs;
  }

  /** Appending a piece to a non-empty list appends one separator and the piece. */
  lemma {:induction false} JoinSnoc(cs: seq<string>, x: string, sep: char)
    requires |cs| >= 1
    ensures Join(cs + [x], sep) == Join(cs, sep) + [sep] + x
    decreases |cs|
  {
    if |cs| == 1 {
      assert cs + [x] == [cs[0]] + [x];
    } else {
      assert (cs + [x])[1..] == cs[1..] + [x];
      JoinSnoc(cs[1..], x, sep);
    }
  }

  /** Python's string order: lexicographic by code point, a proper prefix first. */
  predicate Less(a: string, b: string)
    decreases |a|
  {
    |b| > 0 && (|a| == 0 || a[0] < b[0] || (a[0] == b[0] && Less(a[1..], b[1..])))
  }

  lemma {:induction false} LessIrreflexive(a: string)
    ensures !Less(a, a)
    decreases |a|
  {
    if |a| > 0 {
      LessIrreflexive(a[1..]);
    }
  }

  lemma {:induction false} LessTransitive(a: string, b: string, c: string)
    requires Less(a, b) && Less(b, c)
    ensures Less(a, c)
    decreases |a|
  {
    if |a| > 0 && a[0] == b[0] && b[0] == c[0] {
      LessTransitive(a[1..], b[1..], c[1..]);
    }
  }

  lemma {:induction false} LessTotal(a: string, b: string)
    ensures a == b || Less(a, b) || Less(b, a)
    decreases |a|
  {
    if |a| > 0 && |b| > 0 && a[0] == b[0] {
      LessTotal(a[1..], b[1..]);
      if a[1..] == b[1..] {
        assert a == [a[0]] + a[1..] && b == [b[0]] + b[1..];
      }
    }
  }

  /** Strictly ascending in string order, hence free of duplicates. */
  predicate StrictlySorted(s: seq<string>)
  {
    forall i, j :: 0 <= i < j < |s| ==> Less(s[i], s[j])
  }

  /** Insert `x` into a strictly sorted list, keeping it strictly sorted and free of duplicates. */
  function Insert(x: string, s: seq<string>): (r: seq<string>)
    requires StrictlySorted(s)
    ensures StrictlySorted(r)
    ensures forall y :: y in r <==> y in s || y == x
    decreases |s|
  {
    if |s| == 0 then [x]
    else if x == s[0] then s
    else if Less(x, s[0]) then
      InsertFront(x, s);
      [x] + s
    else
      LessTotal(x, s[0]);
      var t := Insert(x, s[1..]);
      InsertBehind(s[0], t, x, s[1..]);
      [s[0]] + t
  }

  lemma InsertFront(x: string, s: seq<string>)
    requires StrictlySorted(s) && |s| > 0 && Less(x, s[0])
    ensures StrictlySorted([x] + s)
  {
    forall j | 1 <= j < |s| + 1
      ensures Less(x, ([x] + s)[j])
    {
      if j > 1 {
        LessTransitive(x, s[0], s[j - 1]);
      }
    }
  }

  lemma InsertBehind(h: string, t: seq<string>, x: string, rest: seq<string>)
    requires StrictlySorted(t) && Less(h, x)
    requires forall y :: y in rest ==> Less(h, y)
    requires forall y :: y in t <==> y in rest || y == x
    ensures StrictlySorted([h] + t)
  {
    var r := [h] + t;
    forall i, j | 0 <= i < j < |r|
      ensures Less(r[i], r[j])
    {
      if i == 0 {
        assert r[j] == t[j - 1];
        assert r[j] in t;
      } else {
        assert r[i] == t[i - 1] && r[j] == t[j - 1];
      }
    }
  }

  /** The elements of `s` in ascending string order, each once. */
  function SortUnique(s: seq<string>): (r: seq<string>)
    ensures StrictlySorted(r)
    ensures forall y :: y in r <==> y in s
    decreases |s|
  {
    if |s| == 0 then [] else Insert(s[0], SortUnique(s[1..]))
  }
}
