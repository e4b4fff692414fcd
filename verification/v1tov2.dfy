/**
 The line rewrites of the V1-to-V2 ledger-syntax converter. Each regular
 expression is spelled out as prefix and character tests, and each rewrite
 returns its line unchanged when its pattern does not match.
 */
module V1ToV2 {
  import opened Wrappers
  import opened Dates
  import Strings

  // ---------------------------------------------------------------------
  // Character classes and the `(.*)` group.

  /** `\d`, over ASCII digits. */
  predicate IsDigit(c: char)
  {
    '0' <= c <= '9'
  }

  /** `\s`, over ASCII whitespace: space, tab, newline, vertical tab, form feed, carriage return. */
  predicate IsSpace(c: char)
  {
    c == ' ' || ('\t' <= c <= '\r')
  }

  /** What `(.*)` captures: everything up to the first newline. */
  function TakeLine(s: string): (r: string)
    ensures |r| <= |s| && r == s[..|r|]
    ensures '\n' !in r
    ensures |r| < |s| ==> s[|r|] == '\n'
    decreases |s|
  {
    if |s| == 0 || s[0] == '\n' then "" else [s[0]] + TakeLine(s[1..])
  }

  lemma {:induction false} TakeLineWhole(t: string, rest: string)
    requires '\n' !in t
    ensures TakeLine(t + "\n" + rest) == t
    decreases |t|
  {
    var s := t + "\n" + rest;
    if |t| == 0 {
      assert s[0] == '\n';
    } else {
      assert s[0] == t[0] && s[1..] == t[1..] + "\n" + rest;
      TakeLineWhole(t[1..], rest);
    }
  }

  /** A string whose first character differs from the pattern's does not start with it. */
  lemma FirstDiffers(s: string, p: string)
    requires |s| > 0 && |p| > 0 && s[0] != p[0]
    ensures !Strings.StartsWith(s, p)
  {
    if |p| <= |s| {
      assert s[..|p|][0] == s[0];
    }
  }

  // ---------------------------------------------------------------------
  // unquote.

  /** `unquote`: every double quote becomes a single quote. */
  function Unquote(s: string): (r: string)
    ensures |r| == |s|
    ensures '"' !in r
    ensures forall i :: 0 <= i < |s| && s[i] != '"' ==> r[i] == s[i]
    ensures forall i :: 0 <= i < |s| && s[i] == '"' ==> r[i] == '\''
    decreases |s|
  {
    if |s| == 0 then ""
    else [if s[0] == '"' then '\'' else s[0]] + Unquote(s[1..])
  }

  /** A line without double quotes is left as it is; unquoting twice is unquoting once. */
  lemma UnquoteStable(s: string)
    ensures '"' !in s ==> Unquote(s) == s
    ensures Unquote(Unquote(s)) == Unquote(s)
  {
  }

  // ---------------------------------------------------------------------
  // convert_defcomm_directive.

  /**
   `convert_defcomm_directive`: comment out a line starting `@defcomm`. Exactly
   those lines change, and no result starts `@defcomm` any more.
   */
  function ConvertDefcommDirective(line: string): (r: string)
    ensures Strings.StartsWith(line, "@defcomm") ==> r == ";" + line
    ensures r != line <==> Strings.StartsWith(line, "@defcomm")
    ensures !Strings.StartsWith(r, "@defcomm")
  {
    if Strings.StartsWith(line, "@defcomm") then
      var r := ";" + line;
      assert r[0] == ';';
      assert |r| == |line| + 1;
      r
    else line
  }

  /** A line is prefixed with `;` exactly when it starts `@defcomm`; converting twice is converting once. */
  lemma DefcommOnce(line: string)
    ensures ConvertDefcommDirective(line) != line <==> Strings.StartsWith(line, "@defcomm")
    ensures ConvertDefcommDirective(ConvertDefcommDirective(line)) == ConvertDefcommDirective(line)
  {
    var r := ConvertDefcommDirective(line);
    if Strings.StartsWith(line, "@defcomm") {
      assert |r| == |line| + 1;
      assert r[0] == ';';
      assert !Strings.StartsWith(r, "@defcomm");
    }
  }

  // ---------------------------------------------------------------------
  // add_org_mode_section.

  const OrgPrefix: string := ";;;;; "

  /** `add_org_mode_section`: a `;;;;; ` comment line becomes an org-mode heading. */
  function AddOrgModeSection(line: string): (r: string)
    ensures !Strings.StartsWith(line, OrgPrefix) ==> r == line
    ensures Strings.StartsWith(line, OrgPrefix) ==> Strings.StartsWith(r, "* ") && r[|r| - 1] == '\n'
  {
    if Strings.StartsWith(line, OrgPrefix) then "* " + TakeLine(line[|OrgPrefix|..]) + "\n" else line
  }

  /** The section comment `;;;;; X` becomes the heading `* X`. */
  lemma OrgModeHeading(x: string)
    requires '\n' !in x
    ensures AddOrgModeSection(OrgPrefix + x + "\n") == "* " + x + "\n"
  {
    var line := OrgPrefix + x + "\n";
    assert line[..|OrgPrefix|] == OrgPrefix;
    assert line[|OrgPrefix|..] == x + "\n" + "";
    TakeLineWhole(x, "");
  }

  // ---------------------------------------------------------------------
  // Dates as text: `\d\d\d\d-\d\d-\d\d`.

  /** `\d\d\d\d-\d\d-\d\d` at position `i`. */
  predicate DateAt(s: string, i: nat)
  {
    && i + 10 <= |s|
    && IsDigit(s[i]) && IsDigit(s[i + 1]) && IsDigit(s[i + 2]) && IsDigit(s[i + 3])
    && s[i + 4] == '-' && IsDigit(s[i + 5]) && IsDigit(s[i + 6])
    && s[i + 7] == '-' && IsDigit(s[i + 8]) && IsDigit(s[i + 9])
  }

  function DigitValue(c: char): nat
    requires IsDigit(c)
  {
    (c as int - '0' as int) as nat
  }

  function DigitChar(n: nat): (c: char)
    requires n < 10
    ensures IsDigit(c) && DigitValue(c) == n
  {
    ('0' as int + n) as char
  }

  /** The number a string of digits spells (`int()`). */
  function Value(s: string): nat
    requires forall i :: 0 <= i < |s| ==> IsDigit(s[i])
    decreases |s|
  {
    if |s| == 0 then 0 else 10 * Value(s[..|s| - 1]) + DigitValue(s[|s| - 1])
  }

  function Pow10(w: nat): (r: nat)
    ensures r >= 1
  {
    if w == 0 then 1 else 10 * Pow10(w - 1)
  }

  /** `n` in `w` zero-padded decimal digits. */
  function Show(n: nat, w: nat): (r: string)
    ensures |r| == w
    ensures forall i :: 0 <= i < |r| ==> IsDigit(r[i])
    decreases w
  {
    if w == 0 then "" else Show(n / 10, w - 1) + [DigitChar(n % 10)]
  }

  /** Reading back `w` padded digits gives the number, when it fits. */
  lemma {:induction false} ValueShow(n: nat, w: nat)
    requires n < Pow10(w)
    ensures Value(Show(n, w)) == n
    decreases w
  {
    if w > 0 {
      var s := Show(n, w);
      assert s[..|s| - 1] == Show(n / 10, w - 1);
      ValueShow(n / 10, w - 1);
    }
  }

  /** `'{:%Y-%m-%d}'.format(d)`. */
  function FormatDate(d: Date): (r: string)
    requires 0 <= d.year < 10000 && 0 <= d.month < 100 && 0 <= d.day < 100
    ensures |r| == 10 && DateAt(r, 0)
  {
    Show(d.year, 4) + "-" + Show(d.month, 2) + "-" + Show(d.day, 2)
  }

  /** The year, month and day a date pattern at the start of `s` spells. */
  function ParseDate(s: string): Date
    requires DateAt(s, 0)
  {
    Date(Value(s[0..4]), Value(s[5..7]), Value(s[8..10]))
  }

  lemma ParseFormat(d: Date, rest: string)
    requires 0 <= d.year < 10000 && 0 <= d.month < 100 && 0 <= d.day < 100
    ensures DateAt(FormatDate(d) + rest, 0)
    ensures ParseDate(FormatDate(d) + rest) == d
  {
    var s := FormatDate(d) + rest;
    assert s[0..4] == Show(d.year, 4);
    assert s[5..7] == Show(d.month, 2);
    assert s[8..10] == Show(d.day, 2);
    ValueShow(d.year, 4);
    ValueShow(d.month, 2);
    ValueShow(d.day, 2);
  }

  // ---------------------------------------------------------------------
  // remove_datepair.

  /** `^(date)=(date) (.*)`. */
  predicate IsDatepair(line: string)
  {
    |line| >= 22 && DateAt(line, 0) && line[10] == '=' && DateAt(line, 11) && line[21] == ' '
  }

  /** `remove_datepair`: `D1=D2 rest` becomes `D1 rest {D2}`, the auxiliary date moved to the end. */
  function RemoveDatepair(line: string): (r: string)
    ensures !IsDatepair(line) ==> r == line
    ensures IsDatepair(line) ==> Strings.StartsWith(r, line[..10] + " ") && r[|r| - 1] == '\n'
  {
    if IsDatepair(line) then line[..10] + " " + TakeLine(line[22..]) + " {" + line[11..21] + "}\n" else line
  }

  /** `D1=D2 rest` becomes `D1 rest {D2}` for any dates and a one-line rest. */
  lemma DatepairMoved(d1: string, d2: string, rest: string)
    requires |d1| == 10 && DateAt(d1, 0) && |d2| == 10 && DateAt(d2, 0)
    requires '\n' !in rest
    ensures RemoveDatepair(d1 + "=" + d2 + " " + rest + "\n") == d1 + " " + rest + " {" + d2 + "}\n"
  {
    var line := d1 + "=" + d2 + " " + rest + "\n";
    assert line[..10] == d1;
    assert line[11..21] == d2;
    assert forall i :: 0 <= i < 10 ==> line[11 + i] == d2[i];
    assert IsDatepair(line);
    assert line[22..] == rest + "\n" + "";
    TakeLineWhole(rest, "");
  }

  // ---------------------------------------------------------------------
  // convert_tags (the second definition, the one in force).

  /** `(begintag|endtag)\s+` at the start of `s`: the tag and the length of the whitespace run. */
  function TagAt(s: string): (r: Option<(string, nat)>)
    ensures r.Some? ==> (r.value.0 == "begintag" || r.value.0 == "endtag") && Strings.StartsWith(s, r.value.0)
    ensures r.Some? ==> 0 < r.value.1 && |r.value.0| + r.value.1 <= |s|
  {
    var tag := if Strings.StartsWith(s, "begintag") then "begintag" else "endtag";
    var n := SpaceRun(s, |tag|);
    if Strings.StartsWith(s, tag) && n > 0 then Some((tag, n)) else None
  }

  /** The length of the whitespace run starting at `i` (`\s+` is greedy). */
  function SpaceRun(s: string, i: nat): (n: nat)
    ensures i + n <= |s| || n == 0
    ensures forall j :: i <= j < i + n ==> IsSpace(s[j])
    ensures i + n < |s| ==> !IsSpace(s[i + n])
    decreases |s| - i
  {
    if i < |s| && IsSpace(s[i]) then 1 + SpaceRun(s, i + 1) else 0
  }

  /**
   `re.sub('(begintag|endtag)\s+(.*)', '\1 #\2', s)`: scanning left to right,
   each match keeps the tag, replaces the whitespace run by ` #`, and keeps the
   rest of the line.
   */
  function SubTags(s: string): string
    decreases |s|
  {
    if |s| == 0 then ""
    else match TagAt(s)
      case Some((tag, n)) =>
        var after := s[|tag| + n..];
        var text := TakeLine(after);
        tag + " #" + text + SubTags(after[|text|..])
      case None => [s[0]] + SubTags(s[1..])
  }

  predicate StartsWithTag(line: string)
  {
    Strings.StartsWith(line, "begintag") || Strings.StartsWith(line, "endtag")
  }

  /** `convert_tags`: on a line starting with `begintag` or `endtag`, mark the tag name with `#`. */
  function ConvertTags(line: string): (r: string)
    ensures !StartsWithTag(line) ==> r == line
  {
    if StartsWithTag(line) then SubTags(line) else line
  }

  lemma SubTagsNewline()
    ensures SubTags("\n") == "\n"
  {
    assert !Strings.StartsWith("\n", "begintag") && !Strings.StartsWith("\n", "endtag");
    assert "\n"[1..] == "";
  }

  /** `begintag NAME` and `endtag NAME` become `begintag #NAME` and `endtag #NAME`. */
  lemma TagMarked(tag: string, name: string)
    requires tag == "begintag" || tag == "endtag"
    requires '\n' !in name && |name| > 0 && !IsSpace(name[0])
    ensures ConvertTags(tag + " " + name + "\n") == tag + " #" + name + "\n"
  {
    var line := tag + " " + name + "\n";
    assert line[..|tag|] == tag;
    if tag == "endtag" {
      FirstDiffers(line, "begintag");
    }
    assert line[|tag|] == ' ' && line[|tag| + 1] == name[0];
    assert SpaceRun(line, |tag| + 1) == 0;
    assert TagAt(line) == Some((tag, 1));
    var after := line[|tag| + 1..];
    assert after == name + "\n" + "";
    TakeLineWhole(name, "");
    assert after[|name|..] == "\n";
    SubTagsNewline();
  }

  // ---------------------------------------------------------------------
  // check_to_check_after.

  /** Why the conversion of a check line raises. */
  datatype DateError =
    | InvalidDate(date: Date)   // `datetime.date` rejects the digits
    | DateOverflow              // the day after 9999-12-31

  /** `(\d\d\d\d)-(\d\d)-(\d\d) check (.*)` at the start of the line. */
  predicate IsCheck(line: string)
  {
    |line| >= 17 && DateAt(line, 0) && line[10..17] == " check "
  }

  /**
   `check_to_check_after`: a balance check dated `D` becomes one dated the day
   after, keeping the rest of the line; an impossible date raises.
   */
  function CheckToCheckAfter(line: string): (r: Result<string, DateError>)
    ensures !IsCheck(line) ==> r == Ok(line)
    ensures IsCheck(line) && !IsValid(ParseDate(line)) ==> r == Err(InvalidDate(ParseDate(line)))
    ensures IsCheck(line) && IsValid(ParseDate(line)) ==> (r == Err(DateOverflow) <==> ParseDate(line) == Date(MaxYear, 12, 31))
  {
    if !IsCheck(line) then Ok(line)
    else
      var d := ParseDate(line);
      var rest := TakeLine(line[17..]);
      if !IsValid(d) then Err(InvalidDate(d))
      else
        match NextDay(d)
        case None => Err(DateOverflow)
        case Some(next) =>
          Ok(FormatDate(next) + " check " + rest + "\n")
  }

  /**
   A check dated `d` moves to the day after `d`, exactly one day later, with the
   rest of the line kept.
   */
  lemma CheckMovesOneDay(d: Date, text: string)
    requires IsValid(d) && d != Date(MaxYear, 12, 31)
    requires '\n' !in text
    ensures var next := NextDay(d).value;
      && Ordinal(next) == Ordinal(d) + 1
      && CheckToCheckAfter(FormatDate(d) + " check " + text + "\n") == Ok(FormatDate(next) + " check " + text + "\n")
  {
    var line := FormatDate(d) + " check " + text + "\n";
    ParseFormat(d, " check " + text + "\n");
    assert line == FormatDate(d) + (" check " + text + "\n");
    assert line[10..17] == " check ";
    assert line[17..] == text + "\n" + "";
    TakeLineWhole(text, "");
  }

  /** A check on the last representable day raises an overflow. */
  lemma CheckOverflow(text: string)
    ensures CheckToCheckAfter(FormatDate(Date(MaxYear, 12, 31)) + " check " + text).Err?
  {
    var d := Date(MaxYear, 12, 31);
    var line := FormatDate(d) + " check " + text;
    ParseFormat(d, " check " + text);
    assert line == FormatDate(d) + (" check " + text);
    assert line[10..17] == " check ";
  }

  // ---------------------------------------------------------------------
  // tags_begin_to_push.

  /** `re.sub('(begin|end)', new, s)`: every `begin` and every `end`, left to right, becomes `word`. */
  function ReplaceBeginEnd(s: string, word: string): string
    decreases |s|
  {
    if |s| == 0 then ""
    else if Strings.StartsWith(s, "begin") then word + ReplaceBeginEnd(s[5..], word)
    else if Strings.StartsWith(s, "end") then word + ReplaceBeginEnd(s[3..], word)
    else [s[0]] + ReplaceBeginEnd(s[1..], word)
  }

  /** No `begin` or `end` starts anywhere in `s`. */
  predicate NoBeginEnd(s: string)
  {
    forall i :: 0 <= i < |s| ==> !Strings.StartsWith(s[i..], "begin") && !Strings.StartsWith(s[i..], "end")
  }

  lemma {:induction false} ReplaceNothing(s: string, word: string)
    requires NoBeginEnd(s)
    ensures ReplaceBeginEnd(s, word) == s
    decreases |s|
  {
    if |s| > 0 {
      assert s[0..] == s;
      assert NoBeginEnd(s[1..]) by {
        forall i | 0 <= i < |s[1..]|
          ensures !Strings.StartsWith(s[1..][i..], "begin") && !Strings.StartsWith(s[1..][i..], "end")
        {
          assert s[1..][i..] == s[i + 1..];
        }
      }
      ReplaceNothing(s[1..], word);
    }
  }

  /**
   `tags_begin_to_push`: on a line starting `begintag` or `endtag`, every `begin`
   and `end` in the line becomes `push` (for `begintag`) or `pop` (for `endtag`).
   */
  function TagsBeginToPush(line: string): (r: string)
    ensures !StartsWithTag(line) ==> r == line
  {
    if Strings.StartsWith(line, "begintag") then ReplaceBeginEnd(line, "push")
    else if Strings.StartsWith(line, "endtag") then ReplaceBeginEnd(line, "pop")
    else line
  }

  /** The leading `begintag` becomes `pushtag`, and the rest is rewritten the same way. */
  lemma PushTagLeading(rest: string)
    ensures TagsBeginToPush("begintag" + rest) == "pushtag" + ReplaceBeginEnd(rest, "push")
  {
    var b := "begintag" + rest;
    assert b[..8] == "begintag" && b[..5] == "begin";
    assert b[5..] == "tag" + rest;
    TagTail(rest, "push");
  }

  /** The leading `endtag` becomes `poptag`, and the rest is rewritten the same way. */
  lemma PopTagLeading(rest: string)
    ensures TagsBeginToPush("endtag" + rest) == "poptag" + ReplaceBeginEnd(rest, "pop")
  {
    var e := "endtag" + rest;
    assert e[..6] == "endtag" && e[..3] == "end";
    FirstDiffers(e, "begintag");
    FirstDiffers(e, "begin");
    assert e[3..] == "tag" + rest;
    TagTail(rest, "pop");
  }

  /** The word `tag` holds neither `begin` nor `end`. */
  lemma TagTail(rest: string, word: string)
    ensures ReplaceBeginEnd("tag" + rest, word) == "tag" + ReplaceBeginEnd(rest, word)
  {
    var r := ReplaceBeginEnd(rest, word);
    ReplaceKeeps('g', rest, word);
    ReplaceKeeps('a', ['g'] + rest, word);
    ReplaceKeeps('t', ['a'] + (['g'] + rest), word);
    assert "tag" + rest == ['t'] + (['a'] + (['g'] + rest));
    assert ['t'] + (['a'] + (['g'] + r)) == "tag" + r;
  }

  /** A line whose tag names hold no `begin` or `end` only has its directive renamed. */
  lemma PushTagPlain(rest: string)
    requires NoBeginEnd(rest)
    ensures TagsBeginToPush("begintag" + rest) == "pushtag" + rest
    ensures TagsBeginToPush("endtag" + rest) == "poptag" + rest
  {
    PushTagLeading(rest);
    PopTagLeading(rest);
    ReplaceNothing(rest, "push");
    ReplaceNothing(rest, "pop");
  }

  /** A character starting neither `begin` nor `end` is copied. */
  lemma ReplaceKeeps(c: char, rest: string, word: string)
    requires c != 'b' && c != 'e'
    ensures ReplaceBeginEnd([c] + rest, word) == [c] + ReplaceBeginEnd(rest, word)
  {
    FirstDiffers([c] + rest, "begin");
    FirstDiffers([c] + rest, "end");
    assert ([c] + rest)[1..] == rest;
  }

  /** An `end` is replaced. */
  lemma ReplaceEnd(rest: string, word: string)
    ensures ReplaceBeginEnd("end" + rest, word) == word + ReplaceBeginEnd(rest, word)
  {
    var s := "end" + rest;
    FirstDiffers(s, "begin");
    assert s[..3] == "end" && s[3..] == rest;
  }

  /**
   As written, the rewrite also reaches into tag names: the tag `end` of
   `begintag end` becomes `push`.
   */
  lemma PushTagMangles(rest: string)
    requires NoBeginEnd(rest)
    ensures TagsBeginToPush("begintag" + " end" + rest) == "pushtag" + " push" + rest
  {
    PushTagLeading(" end" + rest);
    SpaceEndReplaced(rest, "push");
    assert "begintag" + " end" + rest == "begintag" + (" end" + rest);
    assert "pushtag" + " push" + rest == "pushtag" + (" push" + rest);
  }

  /** A space and an `end` before a line free of `begin` and `end`: only the `end` is replaced. */
  lemma SpaceEndReplaced(rest: string, word: string)
    requires NoBeginEnd(rest)
    ensures ReplaceBeginEnd(" end" + rest, word) == " " + word + rest
  {
    ReplaceKeeps(' ', "end" + rest, word);
    ReplaceEnd(rest, word);
    ReplaceNothing(rest, word);
    assert " end" + rest == [' '] + ("end" + rest);
    assert [' '] + (word + rest) == " " + word + rest;
  }

  /**
   `tags_begin_to_push` as evidently intended: only the leading directive is
   renamed, to `pushtag` or `poptag`, and the rest of the line is kept.
   */
  function PushPopDirective(line: string): (r: string)
    ensures !StartsWithTag(line) ==> r == line
    ensures Strings.StartsWith(line, "begintag") ==> r == "pushtag" + line[8..]
    ensures !Strings.StartsWith(line, "begintag") && Strings.StartsWith(line, "endtag") ==> r == "poptag" + line[6..]
  {
    if Strings.StartsWith(line, "begintag") then "pushtag" + line[8..]
    else if Strings.StartsWith(line, "endtag") then "poptag" + line[6..]
    else line
  }

  /**
   The corrected rewrite keeps every tag name, and agrees with the one as written
   whenever the names hold no `begin` or `end`.
   */
  lemma PushPopKeepsNames(rest: string)
    ensures PushPopDirective("begintag" + rest) == "pushtag" + rest
    ensures PushPopDirective("endtag" + rest) == "poptag" + rest
    ensures NoBeginEnd(rest) ==> PushPopDirective("begintag" + rest) == TagsBeginToPush("begintag" + rest)
    ensures NoBeginEnd(rest) ==> PushPopDirective("endtag" + rest) == TagsBeginToPush("endtag" + rest)
  {
    var b := "begintag" + rest;
    assert b[..8] == "begintag" && b[8..] == rest;
    var e := "endtag" + rest;
    assert e[..6] == "endtag" && e[6..] == rest;
    FirstDiffers(e, "begintag");
    if NoBeginEnd(rest) {
      PushTagPlain(rest);
    }
  }
}
