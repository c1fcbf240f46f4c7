/**
 * Python's string operations as the pipeline's scripts use them, on `string`
 * (a sequence of Unicode characters). Character classes cover ASCII and
 * Latin-1 whitespace only; see README "Left out".
 */
module Text {
  import opened Wrappers

  // ---------- character classes ----------

  /** Characters that `str.isspace()`, `str.strip()` and the regex class `\s` treat as whitespace (Latin-1 range). */
  const Whitespace: set<char> := {' ', '\t', '\n', '\r', '\U{000B}', '\U{000C}', '\U{001C}', '\U{001D}', '\U{001E}', '\U{001F}', '\U{0085}', '\U{00A0}'}

  predicate IsSpace(c: char) { c in Whitespace }
  predicate IsDigit(c: char) { '0' <= c <= '9' }
  predicate IsUpperLetter(c: char) { 'A' <= c <= 'Z' }
  predicate IsLowerLetter(c: char) { 'a' <= c <= 'z' }
  /** ASCII letters and digits: the regex class `[A-Za-z0-9]`. */
  predicate IsAsciiAlnum(c: char) { IsDigit(c) || IsUpperLetter(c) || IsLowerLetter(c) }

  /**
   * `str.isalnum()` on one character, exact up to U+00FF: ASCII letters and digits, the
   * Latin-1 letters, the superscripts two, three and one, and the vulgar fractions.
   */
  predicate IsAlnum(c: char)
  {
    || IsAsciiAlnum(c)
    || c == '\U{00AA}' || c == '\U{00B2}' || c == '\U{00B3}' || c == '\U{00B5}'
    || c == '\U{00B9}' || c == '\U{00BA}' || '\U{00BC}' <= c <= '\U{00BE}'
    || ('\U{00C0}' <= c <= '\U{00FF}' && c != '\U{00D7}' && c != '\U{00F7}')
  }

  /** `str.isdigit()`: nonempty and every character a digit. */
  predicate IsDigits(s: string) { |s| > 0 && forall i :: 0 <= i < |s| ==> IsDigit(s[i]) }

  function LowerChar(c: char): char { if IsUpperLetter(c) then (c as int + 32) as char else c }
  function UpperChar(c: char): char { if IsLowerLetter(c) then (c as int - 32) as char else c }

  /** `str.lower()` */
  function Lower(s: string): (r: string)
    ensures |r| == |s| && forall i :: 0 <= i < |s| ==> r[i] == LowerChar(s[i])
  {
    if s == [] then [] else [LowerChar(s[0])] + Lower(s[1..])
  }

  /** `str.upper()` */
  function Upper(s: string): (r: string)
    ensures |r| == |s| && forall i :: 0 <= i < |s| ==> r[i] == UpperChar(s[i])
  {
    if s == [] then [] else [UpperChar(s[0])] + Upper(s[1..])
  }

  /** A string `str.upper()` leaves unchanged holds no lower-case letter. */
  predicate HasNoLower(s: string) { forall i :: 0 <= i < |s| ==> !IsLowerLetter(s[i]) }

  lemma UpperHasNoLower(s: string)
    ensures HasNoLower(Upper(s))
  {
  }

  // ---------- prefixes, suffixes, substrings ----------

  predicate StartsWith(s: string, p: string) { |p| <= |s| && s[..|p|] == p }
  predicate EndsWith(s: string, p: string) { |p| <= |s| && s[|s| - |p|..] == p }

  /** A string starts with what it was built from. */
  lemma StartsWithAppend(a: string, b: string)
    ensures StartsWith(a + b, a)
  {
    assert (a + b)[..|a|] == a;
  }

  /** A string ends with what was appended to it. */
  lemma EndsWithAppend(a: string, b: string)
    ensures EndsWith(a + b, b)
  {
    assert (a + b)[|a + b| - |b|..] == b;
  }

  /** Moving the middle parts of a four-part string between its halves. */
  lemma Regroup(a: string, b: string, c: string, d: string)
    ensures a + (b + c) + d == (a + b) + (c + d)
  {
  }

  /** A prefix of a prefix, however the concatenation is grouped. */
  lemma PrefixOfPrefix(s: string, x: string, y: string, w: string)
    requires StartsWith(s, x + (y + w))
    ensures StartsWith(s, x + y)
  {
    assert x + (y + w) == (x + y) + w;
    assert (x + (y + w))[..|x + y|] == x + y;
  }

  /** A prefix of a prefix is a prefix. */
  lemma PrefixTrans(p: string, m: string, s: string)
    requires StartsWith(m, p) && StartsWith(s, m)
    ensures StartsWith(s, p)
  {
    assert s[..|p|] == s[..|m|][..|p|];
  }

  /** Python's `pat in s` for a substring. */
  predicate Contains(s: string, pat: string)
    decreases |s|
  {
    StartsWith(s, pat) || (s != [] && Contains(s[1..], pat))
  }

  lemma ContainsAt(s: string, pat: string, i: nat)
    requires i + |pat| <= |s| && s[i..i + |pat|] == pat
    ensures Contains(s, pat)
    decreases i
  {
    if i > 0 {
      assert s[1..][i - 1..i - 1 + |pat|] == s[i..i + |pat|];
      ContainsAt(s[1..], pat, i - 1);
    }
  }

  lemma ContainsWitness(s: string, pat: string) returns (i: nat)
    requires Contains(s, pat)
    ensures i + |pat| <= |s| && s[i..i + |pat|] == pat
    decreases |s|
  {
    if StartsWith(s, pat) {
      i := 0;
    } else {
      var j := ContainsWitness(s[1..], pat);
      assert s[1..][j..j + |pat|] == s[j + 1..j + 1 + |pat|];
      i := j + 1;
    }
  }

  /** `pat` occurs in `s` at position `i`. */
  predicate OccursAt(s: string, pat: string, i: nat)
  {
    i + |pat| <= |s| && s[i..i + |pat|] == pat
  }

  /** With no occurrence at any position, the needle is not contained. */
  lemma {:induction false} NotContains(s: string, pat: string)
    requires forall i: nat :: !OccursAt(s, pat, i)
    ensures !Contains(s, pat)
    decreases |s|
  {
    if |pat| <= |s| {
      assert !OccursAt(s, pat, 0);
      assert s[0..|pat|] == s[..|pat|];
    }
    if s != [] {
      forall i: nat ensures !OccursAt(s[1..], pat, i) {
        assert !OccursAt(s, pat, i + 1);
        if i + |pat| <= |s[1..]| {
          assert s[1..][i..i + |pat|] == s[i + 1..i + 1 + |pat|];
        }
      }
      NotContains(s[1..], pat);
    }
  }

  /** A one-character needle is contained exactly when the character occurs. */
  lemma ContainsChar(s: string, c: char)
    ensures Contains(s, [c]) <==> c in s
    decreases |s|
  {
    if s != [] {
      ContainsChar(s[1..], c);
      assert s == [s[0]] + s[1..];
    }
  }

  /** `s.index(c)`: the first position of `c`. */
  function IndexOf(s: string, c: char): (i: nat)
    requires c in s
    ensures i < |s| && s[i] == c && c !in s[..i]
  {
    if s[0] == c then 0 else
      assert s == [s[0]] + s[1..];
      var j := IndexOf(s[1..], c);
      assert s[..j + 1] == [s[0]] + s[1..][..j];
      j + 1
  }

  /** The first occurrence is the one with none before it. */
  lemma IndexOfIs(s: string, c: char, i: nat)
    requires i < |s| && s[i] == c && c !in s[..i]
    ensures c in s && IndexOf(s, c) == i
  {
    assert s[i] in s;
    var j := IndexOf(s, c);
    assert forall k :: 0 <= k < i ==> s[..i][k] == s[k];
  }

  // ---------- stripping ----------

  /** `s.lstrip(chars)` for the set of characters `cs`. */
  function LStripSet(s: string, cs: set<char>): (r: string)
    ensures |r| <= |s| && r == s[|s| - |r|..]
    ensures r == [] || r[0] !in cs
    ensures forall i :: 0 <= i < |s| - |r| ==> s[i] in cs
    decreases |s|
  {
    if s != [] && s[0] in cs then LStripSet(s[1..], cs) else s
  }

  /** `s.rstrip(chars)` for the set of characters `cs`. */
  function RStripSet(s: string, cs: set<char>): (r: string)
    ensures |r| <= |s| && r == s[..|r|]
    ensures r == [] || r[|r| - 1] !in cs
    ensures forall i :: |r| <= i < |s| ==> s[i] in cs
    decreases |s|
  {
    if s != [] && s[|s| - 1] in cs then RStripSet(s[..|s| - 1], cs) else s
  }

  /** `s.strip(chars)`: the longest infix that neither starts nor ends with a character of `cs`. */
  function StripSet(s: string, cs: set<char>): (r: string)
  {
    RStripSet(LStripSet(s, cs), cs)
  }

  lemma StripSetShape(s: string, cs: set<char>)
    ensures var r := StripSet(s, cs);
      r == [] || (r[0] !in cs && r[|r| - 1] !in cs)
  {
    var l := LStripSet(s, cs);
    var r := RStripSet(l, cs);
    if r != [] {
      assert r[0] == l[0];
    }
  }

  /** A string with no character of `cs` at either end is its own strip. */
  lemma StripSetNoop(s: string, cs: set<char>)
    requires s == [] || (s[0] !in cs && s[|s| - 1] !in cs)
    ensures StripSet(s, cs) == s
  {
  }

  /** Stripping only removes characters of `cs`, so a string with none of them is its own strip. */
  lemma StripSetKeeps(s: string, cs: set<char>)
    ensures forall c :: c in StripSet(s, cs) ==> c in s
  {
    var l := LStripSet(s, cs);
    assert forall c :: c in RStripSet(l, cs) ==> c in l;
    assert forall c :: c in l ==> c in s;
  }

  /** `str.strip()` with no argument. */
  function Strip(s: string): string { StripSet(s, Whitespace) }

  /** `str.strip()` removes no inner characters: a string whose ends are not blank is unchanged. */
  lemma StripNoop(s: string)
    requires s == [] || (!IsSpace(s[0]) && !IsSpace(s[|s| - 1]))
    ensures Strip(s) == s
  {
    StripSetNoop(s, Whitespace);
  }

  /** Blanks added around a string with non-blank ends are stripped away again. */
  lemma StripPadded(pre: string, s: string, post: string)
    requires s != [] && !IsSpace(s[0]) && !IsSpace(s[|s| - 1])
    requires forall i :: 0 <= i < |pre| ==> IsSpace(pre[i])
    requires forall i :: 0 <= i < |post| ==> IsSpace(post[i])
    ensures Strip(pre + s + post) == s
  {
    assert pre + s + post == pre + (s + post);
    LStripPrefix(pre, s + post, Whitespace);
    RStripSuffix(s, post, Whitespace);
  }

  lemma {:induction false} LStripPrefix(pre: string, rest: string, cs: set<char>)
    requires forall i :: 0 <= i < |pre| ==> pre[i] in cs
    requires rest == [] || rest[0] !in cs
    ensures LStripSet(pre + rest, cs) == rest
  {
    if pre != [] {
      assert (pre + rest)[1..] == pre[1..] + rest;
      LStripPrefix(pre[1..], rest, cs);
    } else {
      assert pre + rest == rest;
    }
  }

  lemma {:induction false} RStripSuffix(s: string, post: string, cs: set<char>)
    requires forall i :: 0 <= i < |post| ==> post[i] in cs
    requires s == [] || s[|s| - 1] !in cs
    ensures RStripSet(s + post, cs) == s
  {
    if post != [] {
      assert (s + post)[..|s + post| - 1] == s + post[..|post| - 1];
      RStripSuffix(s, post[..|post| - 1], cs);
    } else {
      assert s + post == s;
    }
  }

  // ---------- split and join ----------

  /** `s.split(sep)` for a one-character separator: always at least one piece, none holding `sep`. */
  function Split(s: string, sep: char): (r: seq<string>)
    ensures |r| >= 1
    ensures forall i :: 0 <= i < |r| ==> sep !in r[i]
    decreases |s|
  {
    if s == [] then [""]
    else if s[0] == sep then [""] + Split(s[1..], sep)
    else
      var rest := Split(s[1..], sep);
      [[s[0]] + rest[0]] + rest[1..]
  }

  /** `sep.join(parts)` */
  function Join(parts: seq<string>, sep: string): string
  {
    if parts == [] then ""
    else if |parts| == 1 then parts[0]
    else parts[0] + sep + Join(parts[1..], sep)
  }

  /** Text written one line at a time, each line followed by a newline. */
  function Terminated(lines: seq<string>): string
  {
    if lines == [] then "" else lines[0] + "\n" + Terminated(lines[1..])
  }

  /** Newline-terminated lines are the lines joined with a final empty piece. */
  lemma {:induction false} TerminatedIsJoin(lines: seq<string>)
    ensures Terminated(lines) == Join(lines + [""], "\n")
  {
    if lines != [] {
      TerminatedIsJoin(lines[1..]);
      assert (lines + [""])[1..] == lines[1..] + [""];
    }
  }

  /** Splitting newline-terminated lines gives the lines back, then one empty piece. */
  lemma SplitTerminated(lines: seq<string>)
    requires forall i :: 0 <= i < |lines| ==> '\n' !in lines[i]
    ensures Split(Terminated(lines), '\n') == lines + [""]
  {
    TerminatedIsJoin(lines);
    SplitJoin(lines + [""], '\n');
  }

  /** Joining the pieces of a split gives the string back. */
  lemma {:induction false} JoinSplit(s: string, sep: char)
    ensures Join(Split(s, sep), [sep]) == s
    decreases |s|
  {
    if s == [] {
    } else if s[0] == sep {
      JoinSplit(s[1..], sep);
      assert s == [sep] + s[1..];
    } else {
      var rest := Split(s[1..], sep);
      JoinSplit(s[1..], sep);
      if |rest| == 1 {
        assert s == [s[0]] + rest[0];
      } else {
        assert Join(rest, [sep]) == rest[0] + [sep] + Join(rest[1..], [sep]);
        assert s == [s[0]] + s[1..];
      }
    }
  }

  /** A separator splits the text at it: the pieces before, then the pieces after. */
  lemma {:induction false} SplitConcat(a: string, b: string, sep: char)
    ensures Split(a + [sep] + b, sep) == Split(a, sep) + Split(b, sep)
    decreases |a|
  {
    var s := a + [sep] + b;
    if a == [] {
      assert s == [sep] + b && s[1..] == b;
    } else {
      assert s[0] == a[0] && s[1..] == a[1..] + [sep] + b;
      SplitConcat(a[1..], b, sep);
    }
  }

  /** Lines written before a separator read back as themselves, followed by the lines of the rest. */
  lemma SplitAfterLines(head: seq<string>, rest: string, sep: char)
    requires head != [] && forall i :: 0 <= i < |head| ==> sep !in head[i]
    ensures Split(Join(head, [sep]) + [sep] + rest, sep) == head + Split(rest, sep)
  {
    SplitConcat(Join(head, [sep]), rest, sep);
    SplitJoin(head, sep);
  }

  /** Joining two nonempty lists: the joins of each, with one separator between. */
  lemma {:induction false} JoinAppend(xs: seq<string>, ys: seq<string>, sep: string)
    requires xs != [] && ys != []
    ensures Join(xs + ys, sep) == Join(xs, sep) + sep + Join(ys, sep)
  {
    if |xs| > 1 {
      assert (xs + ys)[1..] == xs[1..] + ys;
      JoinAppend(xs[1..], ys, sep);
    }
  }

  /** Splitting a join of separator-free pieces gives the pieces back. */
  lemma {:induction false} SplitJoin(parts: seq<string>, sep: char)
    requires |parts| >= 1
    requires forall i :: 0 <= i < |parts| ==> sep !in parts[i]
    ensures Split(Join(parts, [sep]), sep) == parts
    decreases |parts|, |parts[0]|
  {
    var p := parts[0];
    if p == [] {
      if |parts| == 1 {
      } else {
        var j := Join(parts[1..], [sep]);
        assert Join(parts, [sep]) == [sep] + j;
        SplitJoin(parts[1..], sep);
        assert Split([sep] + j, sep) == [""] + Split(j, sep);
        assert parts == [""] + parts[1..];
      }
    } else {
      var shorter := [p[1..]] + parts[1..];
      assert forall i :: 0 <= i < |shorter| ==> sep !in shorter[i] by {
        forall i | 0 <= i < |shorter| ensures sep !in shorter[i] {
          if i == 0 { assert forall c :: c in p[1..] ==> c in p; }
        }
      }
      SplitJoin(shorter, sep);
      var whole := Join(parts, [sep]);
      assert whole == [p[0]] + Join(shorter, [sep]) by {
        if |parts| == 1 {
          assert p == [p[0]] + p[1..];
        } else {
          assert Join(shorter, [sep]) == p[1..] + [sep] + Join(parts[1..], [sep]);
          assert p == [p[0]] + p[1..];
        }
      }
      assert whole[0] == p[0] && whole[1..] == Join(shorter, [sep]);
      assert p[0] != sep;
      assert p == [p[0]] + p[1..];
      assert parts == [[p[0]] + p[1..]] + parts[1..];
    }
  }

  // ---------- replace ----------

  /** `s.replace(pat, rep)`: occurrences found left to right, never overlapping. */
  function ReplaceAll(s: string, pat: string, rep: string): (r: string)
    requires pat != []
    decreases |s|
  {
    if |s| < |pat| then s
    else if s[..|pat|] == pat then rep + ReplaceAll(s[|pat|..], pat, rep)
    else [s[0]] + ReplaceAll(s[1..], pat, rep)
  }

  /** Replacing adds no character that neither the string nor the replacement holds. */
  lemma {:induction false} ReplaceKeepsAbsent(s: string, pat: string, rep: string, c: char)
    requires pat != [] && c !in s && c !in rep
    ensures c !in ReplaceAll(s, pat, rep)
    decreases |s|
  {
    if |s| < |pat| {
    } else if s[..|pat|] == pat {
      assert forall i :: |pat| <= i < |s| ==> s[i] in s;
      ReplaceKeepsAbsent(s[|pat|..], pat, rep, c);
    } else {
      assert forall i :: 1 <= i < |s| ==> s[i] in s;
      ReplaceKeepsAbsent(s[1..], pat, rep, c);
    }
  }

  /** A string holding no occurrence is left unchanged. */
  lemma {:induction false} ReplaceAbsent(s: string, pat: string, rep: string)
    requires pat != [] && !Contains(s, pat)
    ensures ReplaceAll(s, pat, rep) == s
    decreases |s|
  {
    if |s| >= |pat| {
      ReplaceAbsent(s[1..], pat, rep);
    }
  }

  /** A string without the needle's first character cannot start an occurrence, so it passes through unchanged. */
  lemma {:induction false} ReplaceAfterClean(a: string, b: string, pat: string, rep: string)
    requires pat != [] && pat[0] !in a
    ensures ReplaceAll(a + b, pat, rep) == a + ReplaceAll(b, pat, rep)
    decreases |a|
  {
    if a != [] {
      var s := a + b;
      if |s| >= |pat| {
        assert s[0] == a[0];
        assert s[1..] == a[1..] + b;
        ReplaceAfterClean(a[1..], b, pat, rep);
        assert a == [a[0]] + a[1..];
      } else {
        assert |b| < |pat|;
        assert ReplaceAll(b, pat, rep) == b;
      }
    } else {
      assert a + b == b;
    }
  }

  /** With the needle's first character not recurring in it, no occurrence starts inside a short `a` and reaches into `b`. */
  lemma NoStraddle(a: string, b: string, pat: string)
    requires pat != [] && 0 < |a| < |pat| <= |a + b|
    requires b[0] == pat[0] && pat[0] !in pat[1..]
    ensures (a + b)[..|pat|] != pat
  {
    assert (a + b)[|a|] == pat[0];
    assert pat[1..][|a| - 1] == pat[|a|];
  }

  /**
   * When `b` starts with the needle's first character and that character does not
   * recur in the needle, no occurrence straddles the seam of `a + b`.
   */
  lemma {:induction false} ReplaceConcat(a: string, b: string, pat: string, rep: string)
    requires pat != []
    requires b == [] || b[0] == pat[0]
    requires pat[0] !in pat[1..]
    ensures ReplaceAll(a + b, pat, rep) == ReplaceAll(a, pat, rep) + ReplaceAll(b, pat, rep)
    decreases |a|
  {
    var s := a + b;
    if a == [] {
      assert s == b;
    } else if b == [] {
      assert s == a;
    } else if |a| < |pat| {
      assert ReplaceAll(a, pat, rep) == a;
      if |s| >= |pat| {
        NoStraddle(a, b, pat);
        ReplaceTail(a, b, pat, rep);
      } else {
        assert ReplaceAll(b, pat, rep) == b;
      }
    } else if a[..|pat|] == pat {
      ReplaceHead(a, b, pat, rep);
    } else {
      ReplaceStep(a, b, pat, rep);
    }
  }

  lemma ReplaceTail(a: string, b: string, pat: string, rep: string)
    requires pat != [] && 0 < |a| < |pat| <= |a + b| && b != [] && b[0] == pat[0] && pat[0] !in pat[1..]
    requires (a + b)[..|pat|] != pat
    requires ReplaceAll(a, pat, rep) == a
    ensures ReplaceAll(a + b, pat, rep) == ReplaceAll(a, pat, rep) + ReplaceAll(b, pat, rep)
    decreases |a|, 0
  {
    var s := a + b;
    assert ReplaceAll(s, pat, rep) == [s[0]] + ReplaceAll(s[1..], pat, rep);
    assert s[1..] == a[1..] + b;
    ReplaceConcat(a[1..], b, pat, rep);
    ShortUnchanged(a[1..], pat, rep);
    assert a == [a[0]] + a[1..];
  }

  lemma ShortUnchanged(a: string, pat: string, rep: string)
    requires pat != [] && |a| < |pat|
    ensures ReplaceAll(a, pat, rep) == a
  {
  }

  lemma ReplaceHead(a: string, b: string, pat: string, rep: string)
    requires pat != [] && |pat| <= |a| && a[..|pat|] == pat && (b == [] || b[0] == pat[0]) && pat[0] !in pat[1..]
    ensures ReplaceAll(a + b, pat, rep) == ReplaceAll(a, pat, rep) + ReplaceAll(b, pat, rep)
    decreases |a|, 0
  {
    var s := a + b;
    assert s[..|pat|] == pat;
    assert s[|pat|..] == a[|pat|..] + b;
    ReplaceConcat(a[|pat|..], b, pat, rep);
  }

  lemma ReplaceStep(a: string, b: string, pat: string, rep: string)
    requires pat != [] && |pat| <= |a| && a[..|pat|] != pat && (b == [] || b[0] == pat[0]) && pat[0] !in pat[1..]
    ensures ReplaceAll(a + b, pat, rep) == ReplaceAll(a, pat, rep) + ReplaceAll(b, pat, rep)
    decreases |a|, 0
  {
    ReplaceConcat(a[1..], b, pat, rep);
    MissJoin(a, b, pat, rep);
  }

  /** A miss at the front of `a` carries a split of `a[1..] + b` over to `a + b`. */
  lemma MissJoin(a: string, b: string, pat: string, rep: string)
    requires pat != [] && |pat| <= |a| && a[..|pat|] != pat
    requires ReplaceAll(a[1..] + b, pat, rep) == ReplaceAll(a[1..], pat, rep) + ReplaceAll(b, pat, rep)
    ensures ReplaceAll(a + b, pat, rep) == ReplaceAll(a, pat, rep) + ReplaceAll(b, pat, rep)
  {
    var s := a + b;
    assert s[..|pat|] == a[..|pat|];
    assert s[1..] == a[1..] + b && s[0] == a[0];
    ReplaceMiss(s, pat, rep);
    ReplaceMiss(a, pat, rep);
    var x, y := ReplaceAll(a[1..], pat, rep), ReplaceAll(b, pat, rep);
    assert [a[0]] + (x + y) == ([a[0]] + x) + y;
  }

  /** Where no occurrence starts, the first character passes through. */
  lemma ReplaceMiss(s: string, pat: string, rep: string)
    requires pat != [] && |pat| <= |s| && s[..|pat|] != pat
    ensures ReplaceAll(s, pat, rep) == [s[0]] + ReplaceAll(s[1..], pat, rep)
  {
  }

  /** A needle replaces itself with `rep`. */
  lemma ReplaceSelf(pat: string, rep: string)
    requires pat != []
    ensures ReplaceAll(pat, pat, rep) == rep
  {
    assert pat[|pat|..] == [];
  }

  // ---------- digits and numbers ----------

  function DigitValue(c: char): nat
    requires IsDigit(c)
  {
    c as int - '0' as int
  }

  predicate AllDigits(s: string) { forall i :: 0 <= i < |s| ==> IsDigit(s[i]) }

  /** The value of a string of decimal digits. */
  function DigitsValue(s: string): nat
    requires AllDigits(s)
  {
    if s == [] then 0 else DigitsValue(s[..|s| - 1]) * 10 + DigitValue(s[|s| - 1])
  }

  function DigitChar(d: nat): (c: char)
    requires d < 10
    ensures IsDigit(c) && DigitValue(c) == d
  {
    ('0' as int + d) as char
  }

  /** `str(n)` for a natural number. */
  function NatToString(n: nat): (s: string)
    ensures IsDigits(s)
  {
    if n < 10 then [DigitChar(n)] else NatToString(n / 10) + [DigitChar(n % 10)]
  }

  /** `str(i)` for any integer. */
  function IntToString(i: int): string
  {
    if i < 0 then "-" + NatToString(-i) else NatToString(i)
  }

  /** Reading back a printed number gives the number. */
  lemma {:induction false} NatToStringValue(n: nat)
    ensures DigitsValue(NatToString(n)) == n
  {
    if n >= 10 {
      NatToStringValue(n / 10);
      var s := NatToString(n);
      assert s[..|s| - 1] == NatToString(n / 10);
    }
  }

  lemma NatToStringInjective(m: nat, n: nat)
    requires NatToString(m) == NatToString(n)
    ensures m == n
  {
    NatToStringValue(m);
    NatToStringValue(n);
  }

  /** `f"{n:0{width}d}"` for a natural number: zero-padded on the left to at least `width` characters. */
  function ZeroPad(n: nat, width: nat): (s: string)
    ensures IsDigits(s) && |s| >= width
  {
    var d := NatToString(n);
    if |d| >= width then d else seq(width - |d|, _ => '0') + d
  }

  /** A leading zero does not change a number's value. */
  lemma {:induction false} LeadingZeroValue(d: string)
    requires AllDigits(d)
    ensures DigitsValue(['0'] + d) == DigitsValue(d)
    decreases |d|
  {
    if d != [] {
      LeadingZeroValue(d[..|d| - 1]);
      assert (['0'] + d)[..|d|] == ['0'] + d[..|d| - 1];
    }
  }

  lemma {:induction false} LeadingZerosValue(z: nat, d: string)
    requires AllDigits(d)
    ensures AllDigits(seq(z, _ => '0') + d)
    ensures DigitsValue(seq(z, _ => '0') + d) == DigitsValue(d)
  {
    if z > 0 {
      var t := seq(z - 1, _ => '0') + d;
      LeadingZerosValue(z - 1, d);
      LeadingZeroValue(t);
      assert seq(z, _ => '0') + d == ['0'] + t;
    } else {
      assert seq(z, _ => '0') + d == d;
    }
  }

  /** Zero padding keeps the value, so two different numbers never pad to the same text. */
  lemma ZeroPadValue(n: nat, width: nat)
    ensures DigitsValue(ZeroPad(n, width)) == n
  {
    var d := NatToString(n);
    NatToStringValue(n);
    if |d| < width {
      LeadingZerosValue(width - |d|, d);
    }
  }

  /**
   * `int(s)` on a string: surrounding whitespace, an optional sign, then decimal
   * digits in which single underscores may separate digits. None means ValueError.
   */
  function PyInt(s: string): (r: Option<int>)
    ensures r.Some? ==> |Strip(s)| > 0
  {
    SignedDigits(Strip(s))
  }

  /** `int()` on an already stripped string. */
  function SignedDigits(t: string): Option<int>
  {
    var neg := t != [] && t[0] == '-';
    var body := if t != [] && (t[0] == '-' || t[0] == '+') then t[1..] else t;
    if IsDigitGroups(body) then
      var v: int := DigitsValue(RemoveUnderscores(body));
      Some(if neg then -v else v)
    else None
  }

  /** Digits, with single underscores allowed between two digits. */
  predicate IsDigitGroups(s: string)
  {
    && |s| > 0 && IsDigit(s[0]) && IsDigit(s[|s| - 1])
    && (forall i :: 0 <= i < |s| ==> IsDigit(s[i]) || s[i] == '_')
    && (forall i :: 0 <= i < |s| - 1 ==> !(s[i] == '_' && s[i + 1] == '_'))
  }

  function RemoveUnderscores(s: string): (r: string)
    requires forall i :: 0 <= i < |s| ==> IsDigit(s[i]) || s[i] == '_'
    ensures AllDigits(r)
    ensures (forall i :: 0 <= i < |s| ==> IsDigit(s[i])) ==> r == s
  {
    if s == [] then [] else (if s[0] == '_' then [] else [s[0]]) + RemoveUnderscores(s[1..])
  }

  /** `int()` reads back what `str()` printed. */
  lemma PyIntOfNat(n: nat)
    ensures PyInt(NatToString(n)) == Some(n)
  {
    var d := NatToString(n);
    assert !IsSpace(d[0]) && !IsSpace(d[|d| - 1]);
    StripNoop(d);
    DigitsRead(d);
    NatToStringValue(n);
  }

  lemma DigitsRead(d: string)
    requires IsDigits(d)
    ensures SignedDigits(d) == Some(DigitsValue(d))
  {
    assert d[0] != '-' && d[0] != '+';
    assert IsDigitGroups(d);
  }

  // ---------- Python's string ordering ----------

  /** `a < b` on Python strings: lexicographic by code point. */
  predicate LexLt(a: string, b: string)
    decreases |a|
  {
    if a == [] then b != []
    else if b == [] then false
    else if a[0] != b[0] then a[0] < b[0]
    else LexLt(a[1..], b[1..])
  }

  predicate LexLe(a: string, b: string) { a == b || LexLt(a, b) }

  lemma {:induction false} LexLtIrreflexive(a: string)
    ensures !LexLt(a, a)
    decreases |a|
  {
    if a != [] { LexLtIrreflexive(a[1..]); }
  }

  lemma {:induction false} LexLtTransitive(a: string, b: string, c: string)
    requires LexLt(a, b) && LexLt(b, c)
    ensures LexLt(a, c)
    decreases |a|
  {
    if a != [] && b != [] && c != [] && a[0] == b[0] && b[0] == c[0] {
      LexLtTransitive(a[1..], b[1..], c[1..]);
    }
  }

  /** Any two different strings are ordered one way or the other. */
  lemma {:induction false} LexLtTotal(a: string, b: string)
    requires a != b
    ensures LexLt(a, b) || LexLt(b, a)
    decreases |a|
  {
    if a != [] && b != [] && a[0] == b[0] {
      assert a == [a[0]] + a[1..] && b == [b[0]] + b[1..];
      LexLtTotal(a[1..], b[1..]);
    }
  }

  lemma LexLtAsymmetric(a: string, b: string)
    requires LexLt(a, b)
    ensures !LexLt(b, a)
  {
    if LexLt(b, a) {
      LexLtTransitive(a, b, a);
      LexLtIrreflexive(a);
    }
  }
}
