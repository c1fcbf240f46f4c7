/**
 * Reading the run ledger in 4B_Parse_VinaResults.py: the prefilter, the arrow
 * normalisation, and the `OK_LINE` pattern
 *
 *   ^[\s✅\-\+]?\s*(.+?)\s*→\s*([A-Za-z0-9._-]+)\s*$
 *
 * matched against the stripped line. The pattern is modelled by the order in
 * which Python's backtracking matcher tries its choices: the optional lead
 * character first taken and then not, each `\s*` longest first, the lazy
 * group shortest first. Everything after the lazy group has only one way to
 * match, which `ArrowTail` computes.
 */
module Ledger {
  import opened Wrappers
  import opened Text
  import opened Sanitize
  import opened VinaResults

  const Arrow: char := '\U{2192}'
  const Check: char := '\U{2705}'

  /** The optional first class `[\s✅\-\+]`. */
  predicate LeadChar(c: char) { IsSpace(c) || c == Check || c == '-' || c == '+' }

  /** `[hi, hi - 1, ..., lo]` */
  function Down(hi: nat, lo: nat): (r: seq<nat>)
    requires lo <= hi
    ensures |r| == hi - lo + 1 && forall k :: 0 <= k < |r| ==> r[k] == hi - k
    decreases hi - lo
  {
    if hi == lo then [lo] else [hi] + Down(hi - 1, lo)
  }

  /**
   * Where the lazy group may start, in the order the matcher tries them: with
   * the lead character taken (when `t` starts with one) and then without it,
   * each followed by the longest whitespace run first.
   */
  function Starts(t: string): (r: seq<nat>)
    ensures r != [] && forall k :: 0 <= k < |r| ==> r[k] <= |t|
  {
    var withLead := if t != [] && LeadChar(t[0]) then Down(1 + Span(t[1..], IsSpace), 1) else [];
    withLead + Down(Span(t, IsSpace), 0)
  }

  /** `\s*$`: nothing but blanks remain. */
  predicate Blank(v: string)
    decreases |v|
  {
    v == [] || (IsSpace(v[0]) && Blank(v[1..]))
  }

  /**
   * `([A-Za-z0-9._-]+)\s*$` with `acc` already taken into the group: the
   * group is greedy and nothing else may follow it but blanks.
   */
  function GroupRest(v: string, acc: string): (r: Option<string>)
    requires AllSafe(acc)
    ensures r.Some? ==> r.value != [] && AllSafe(r.value)
    decreases |v|
  {
    if v != [] && SafeChar(v[0]) then
      assert AllSafe(acc + [v[0]]) by {
        forall i | 0 <= i < |acc| + 1 ensures SafeChar((acc + [v[0]])[i]) {
          if i < |acc| { assert SafeChar(acc[i]); }
        }
      }
      GroupRest(v[1..], acc + [v[0]])
    else if acc != [] && Blank(v) then Some(acc)
    else None
  }

  /** `\s*([A-Za-z0-9._-]+)\s*$` */
  function SecondGroup(v: string): (r: Option<string>)
    ensures r.Some? ==> r.value != [] && AllSafe(r.value)
    decreases |v|
  {
    if v != [] && IsSpace(v[0]) then SecondGroup(v[1..]) else GroupRest(v, [])
  }

  /**
   * `\s*→\s*([A-Za-z0-9._-]+)\s*$` over all of `u`: the second group, if the
   * rest of the line has that shape. Everything here has one way to match.
   */
  function ArrowTail(u: string): (r: Option<string>)
    ensures r.Some? ==> r.value != [] && AllSafe(r.value)
    decreases |u|
  {
    if u == [] then None
    else if IsSpace(u[0]) then ArrowTail(u[1..])
    else if u[0] == Arrow then SecondGroup(u[1..])
    else None
  }

  /**
   * The lazy `(.+?)`: the first end (the group being `t[s..end]`) at which the
   * rest matches, trying ends upward from `e`, with the second group found
   * there. `.` does not match a newline.
   */
  function LazyFrom(t: string, e: nat): (r: Option<(nat, string)>)
    requires e >= 1
    ensures r.Some? ==> e <= r.value.0 <= |t| && r.value.1 != [] && AllSafe(r.value.1)
    decreases |t| + 1 - e
  {
    if e > |t| || t[e - 1] == '\n' then None
    else
      match ArrowTail(t[e..])
      case Some(g) => Some((e, g))
      case None => LazyFrom(t, e + 1)
  }

  /** The first start, in the matcher's order, from which the rest of the pattern matches. */
  function FirstMatch(t: string, starts: seq<nat>): (r: Option<(string, string)>)
    requires forall k :: 0 <= k < |starts| ==> starts[k] <= |t|
    ensures r.Some? ==> r.value.0 != [] && r.value.1 != [] && AllSafe(r.value.1)
  {
    if starts == [] then None
    else
      var s := starts[0];
      match LazyFrom(t, s + 1)
      case Some((e, g)) => Some((t[s..e], g))
      case None => FirstMatch(t, starts[1..])
  }

  /** `OK_LINE.match(t)`: the two groups. */
  function OkLine(t: string): Option<(string, string)>
  {
    FirstMatch(t, Starts(t))
  }

  /**
   * One ledger line: skipped unless it holds `✅`, `->` or `→`; then `->` becomes
   * `→`, the line is stripped and matched, and both groups are stripped.
   */
  function LedgerPair(line: string): (r: Option<(string, string)>)
    ensures !(Check in line) && !Contains(line, "->") && !(Arrow in line) ==> r == None
    ensures r.Some? ==> r.value.1 != [] && AllSafe(r.value.1)
  {
    if !(Check in line) && !Contains(line, "->") && !(Arrow in line) then None
    else StrippedGroups(Strip(ReplaceAll(line, "->", [Arrow])))
  }

  /** Both groups of a matching line, stripped. */
  function StrippedGroups(t: string): (r: Option<(string, string)>)
    ensures r.Some? ==> r.value.1 != [] && AllSafe(r.value.1)
  {
    match OkLine(t)
    case None => None
    case Some((g1, g2)) =>
      StripNoop(g2);
      Some((Strip(g1), Strip(g2)))
  }

  // ---------- when does the pattern match ----------

  /** A tail whose last character is not blank and that holds no arrow does not match. */
  lemma {:induction false} NoArrowFirst(x: string, y: string)
    requires x != [] && !IsSpace(x[|x| - 1]) && Arrow !in x
    ensures ArrowTail(x + y) == None
    decreases |x|
  {
    var u := x + y;
    assert u[0] == x[0] && x[0] in x;
    if IsSpace(x[0]) {
      assert u[1..] == x[1..] + y;
      assert forall c :: c in x[1..] ==> c in x;
      NoArrowFirst(x[1..], y);
    }
  }

  /** A safe group followed by blanks only is taken whole. */
  lemma {:induction false} GroupRestAll(g: string, acc: string)
    requires AllSafe(acc) && AllSafe(g) && acc + g != []
    ensures GroupRest(g, acc) == Some(acc + g)
    decreases |g|
  {
    if g == [] {
      assert acc + g == acc;
    } else {
      assert SafeChar(g[0]);
      assert AllSafe(g[1..]) by {
        forall i | 0 <= i < |g| - 1 ensures SafeChar(g[1..][i]) { assert g[1..][i] == g[i + 1]; }
      }
      assert AllSafe(acc + [g[0]]) by {
        forall i | 0 <= i < |acc| + 1 ensures SafeChar((acc + [g[0]])[i]) {
          if i < |acc| { assert SafeChar(acc[i]); }
        }
      }
      GroupRestAll(g[1..], acc + [g[0]]);
      assert acc + [g[0]] + g[1..] == acc + g;
    }
  }

  lemma SecondGroupOf(g: string)
    requires g != [] && AllSafe(g)
    ensures SecondGroup(" " + g) == Some(g)
  {
    var v := " " + g;
    assert v[1..] == g;
    assert SafeChar(g[0]);
    GroupRestAll(g, []);
    assert [] + g == g;
  }

  /** ` → g` is exactly the tail the pattern wants. */
  lemma ArrowTailOf(g: string)
    requires g != [] && AllSafe(g)
    ensures ArrowTail(" " + [Arrow] + " " + g) == Some(g)
  {
    var u := " " + [Arrow] + " " + g;
    var v := " " + g;
    assert u[1..] == [Arrow] + v;
    assert ([Arrow] + v)[1..] == v;
    SecondGroupOf(g);
  }

  /** Stepping the lazy group past ends where the tail does not match. */
  lemma {:induction false} LazyFromReaches(t: string, e: nat, target: nat, g: string)
    requires 1 <= e <= target <= |t|
    requires NoTailsBetween(t, e, target) && NoNewlinesBetween(t, e - 1, target)
    requires ArrowTail(t[target..]) == Some(g)
    ensures LazyFrom(t, e) == Some((target, g))
    decreases target - e
  {
    if e < target {
      assert NoTailAt(t, e);
      LazyFromReaches(t, e + 1, target, g);
    }
  }

  predicate NoTailsBetween(t: string, lo: nat, hi: nat)
    requires hi <= |t|
  {
    forall k :: lo <= k < hi ==> NoTailAt(t, k)
  }

  predicate NoNewlinesBetween(t: string, lo: int, hi: nat)
    requires hi <= |t|
  {
    forall k :: lo <= k < hi && 0 <= k ==> t[k] != '\n'
  }

  /** The rest of the pattern does not match from `k` on. */
  predicate NoTailAt(t: string, k: nat)
    requires k <= |t|
  {
    ArrowTail(t[k..]).None?
  }

  /** Cutting `lead + body + tail` inside `body`. */
  lemma SuffixInBody(lead: string, body: string, tail: string, k: nat)
    requires |lead| <= k <= |lead| + |body|
    ensures (lead + body + tail)[k..] == body[k - |lead|..] + tail
  {
  }

  /** Ending the group anywhere before the last character of `body` leaves a tail that does not match. */
  lemma EarlyEndsFail(body: string, tail: string, i: nat)
    requires i < |body| && !IsSpace(body[|body| - 1]) && Arrow !in body
    ensures ArrowTail(body[i..] + tail) == None
  {
    var x := body[i..];
    assert x[|x| - 1] == body[|body| - 1];
    forall c | c in x ensures c != Arrow {
      var j :| 0 <= j < |x| && x[j] == c;
      assert x[j] == body[i + j];
    }
    NoArrowFirst(x, tail);
  }

  /** Ending the lazy group inside `body` leaves a tail that does not match. */
  lemma NoTailInBody(lead: string, body: string, tail: string, k: nat)
    requires body != [] && !IsSpace(body[|body| - 1]) && Arrow !in body
    requires |lead| < k < |lead| + |body|
    ensures NoTailAt(lead + body + tail, k)
  {
    SuffixInBody(lead, body, tail, k);
    EarlyEndsFail(body, tail, k - |lead|);
  }

  lemma NoNewlineInBody(lead: string, body: string, tail: string, k: nat)
    requires '\n' !in body && |lead| <= k < |lead| + |body|
    ensures (lead + body + tail)[k] != '\n'
  {
    assert (lead + body + tail)[k] == body[k - |lead|];
  }

  lemma NoTailsInBody(lead: string, body: string, tail: string)
    requires body != [] && !IsSpace(body[|body| - 1]) && Arrow !in body
    ensures NoTailsBetween(lead + body + tail, |lead| + 1, |lead| + |body|)
  {
    forall k | |lead| < k < |lead| + |body| ensures NoTailAt(lead + body + tail, k) {
      NoTailInBody(lead, body, tail, k);
    }
  }

  lemma NoNewlinesInBody(lead: string, body: string, tail: string)
    requires '\n' !in body
    ensures NoNewlinesBetween(lead + body + tail, |lead|, |lead| + |body|)
  {
    forall k | |lead| <= k < |lead| + |body| ensures (lead + body + tail)[k] != '\n' {
      NoNewlineInBody(lead, body, tail, k);
    }
  }

  lemma TailAfterBody(lead: string, body: string, tail: string)
    ensures (lead + body + tail)[|lead| + |body|..] == tail
  {
    SuffixInBody(lead, body, tail, |lead| + |body|);
    assert body[|body|..] + tail == tail;
  }

  /** The lazy group run over `body` ends exactly at its end. */
  lemma BodyLazy(lead: string, body: string, tail: string, g: string)
    requires body != [] && !IsSpace(body[|body| - 1]) && Arrow !in body && '\n' !in body
    requires ArrowTail(tail) == Some(g)
    ensures LazyFrom(lead + body + tail, |lead| + 1) == Some((|lead| + |body|, g))
  {
    var t, target := lead + body + tail, |lead| + |body|;
    TailAfterBody(lead, body, tail);
    NoTailsInBody(lead, body, tail);
    NoNewlinesInBody(lead, body, tail);
    LazyFromReaches(t, |lead| + 1, target, g);
  }

  lemma BodyInMiddle(lead: string, body: string, tail: string)
    ensures |lead| + |body| <= |lead + body + tail|
    ensures (lead + body + tail)[|lead|..|lead| + |body|] == body
  {
  }

  /** When the first start's lazy group finds an end, that is the match. */
  lemma OkLineAt(t: string, s: nat, e: nat, g: string)
    requires Starts(t)[0] == s && LazyFrom(t, s + 1) == Some((e, g))
    ensures OkLine(t) == Some((t[s..e], g))
  {
  }

  /**
   * The general shape: `lead + body + tail`, where the matcher's first start
   * is right after `lead`, `body` has no newline and no arrow and ends in a
   * non-blank character, and `tail` matches the rest of the pattern with
   * second group `g`. Then the groups are `body` and `g`.
   */
  lemma OkLineShape(lead: string, body: string, tail: string, g: string)
    requires body != [] && !IsSpace(body[|body| - 1]) && Arrow !in body && '\n' !in body
    requires ArrowTail(tail) == Some(g)
    requires Starts(lead + body + tail)[0] == |lead|
    ensures OkLine(lead + body + tail) == Some((body, g))
  {
    var t, e := lead + body + tail, |lead| + |body|;
    assert LazyFrom(t, |lead| + 1) == Some((e, g)) by {
      BodyLazy(lead, body, tail, g);
    }
    assert e <= |t| && t[|lead|..e] == body by {
      BodyInMiddle(lead, body, tail);
    }
    OkLineFrom(t, |lead|, e, body, g);
  }

  lemma OkLineFrom(t: string, s: nat, e: nat, body: string, g: string)
    requires s <= e <= |t| && t[s..e] == body
    requires Starts(t)[0] == s && LazyFrom(t, s + 1) == Some((e, g))
    ensures OkLine(t) == Some((body, g))
  {
    OkLineAt(t, s, e, g);
  }

  /** A string with no `>` holds no `->`. */
  lemma {:induction false} NoGreaterNoAscii(s: string)
    requires '>' !in s
    ensures !Contains(s, "->")
    decreases |s|
  {
    if s != [] {
      assert forall c :: c in s[1..] ==> c in s;
      NoGreaterNoAscii(s[1..]);
      if |s| >= 2 {
        assert s[1] in s;
        assert s[..2][1] == s[1];
      }
    }
  }

  /** A name made of safe characters is unchanged by `strip()`. */
  lemma StripSafe(g: string)
    requires AllSafe(g)
    ensures Strip(g) == g
  {
    if g != [] {
      assert SafeChar(g[0]) && SafeChar(g[|g| - 1]);
    }
    StripNoop(g);
  }

  lemma NoGreaterSafe(g: string)
    requires AllSafe(g)
    ensures '>' !in g
  {
    forall c | c in g ensures c != '>' {
      var i :| 0 <= i < |g| && g[i] == c;
      assert SafeChar(g[i]);
    }
  }

  /**
   * A ledger line as the docking run writes it: `t` and a newline, where `t`
   * holds a marker, no `>`, and starts and ends with non-blank characters.
   * Reading it is matching `t` itself.
   */
  lemma LedgerOfWritten(t: string)
    requires t != [] && !IsSpace(t[0]) && !IsSpace(t[|t| - 1]) && '>' !in t
    requires Check in t || Arrow in t
    ensures LedgerPair(t + "\n") == match OkLine(t)
      case None => None
      case Some((a, b)) => Some((Strip(a), Strip(b)))
  {
    var line := t + "\n";
    assert forall c :: c in line ==> c in t || c == '\n';
    assert Check in line || Arrow in line;
    NoGreaterNoAscii(line);
    ReplaceAbsent(line, "->", [Arrow]);
    StripPadded("", t, "\n");
    assert "" + t + "\n" == line;
  }

  // ---------- the two ledger lines of the docking run ----------

  /** The ligand names for which the success line reads back. */
  predicate PlainLigand(lig: string)
  {
    lig != [] && !IsSpace(lig[0]) && !IsSpace(lig[|lig| - 1]) && Arrow !in lig && '\n' !in lig && '>' !in lig
  }

  /** After `✅`, the matcher first tries the group right after the one space. */
  lemma SuccessStarts(lig: string, tail: string)
    requires lig != [] && !IsSpace(lig[0])
    ensures Starts(([Check] + " ") + lig + tail)[0] == 2
  {
    var t := ([Check] + " ") + lig + tail;
    assert t[0] == Check;
    assert t[1..] == " " + (lig + tail);
    SpanIs(" ", lig + tail, IsSpace);
  }

  /** `✅ {ligand} → {pdbid}`, as the docking run writes it, without the newline. */
  function SuccessText(lig: string, pdbid: string): string
  {
    ([Check] + " ") + lig + (" " + [Arrow] + " " + pdbid)
  }

  lemma SuccessTextWritten(lig: string, pdbid: string)
    requires PlainLigand(lig) && pdbid != [] && AllSafe(pdbid)
    ensures var t := SuccessText(lig, pdbid);
      t != [] && !IsSpace(t[0]) && !IsSpace(t[|t| - 1]) && '>' !in t && Check in t
  {
    var t := SuccessText(lig, pdbid);
    NoGreaterSafe(pdbid);
    assert t[0] == Check;
    assert t[|t| - 1] == pdbid[|pdbid| - 1];
    assert SafeChar(pdbid[|pdbid| - 1]);
    assert forall c :: c in t ==> c in lig || c in pdbid || c in [Check] + " " + [Arrow];
  }

  lemma SuccessTextGroups(lig: string, pdbid: string)
    requires PlainLigand(lig) && pdbid != [] && AllSafe(pdbid)
    ensures OkLine(SuccessText(lig, pdbid)) == Some((lig, pdbid))
  {
    var tail := " " + [Arrow] + " " + pdbid;
    ArrowTailOf(pdbid);
    SuccessStarts(lig, tail);
    OkLineShape([Check] + " ", lig, tail, pdbid);
  }

  /**
   * Round trip: the ledger line `✅ {ligand} → {pdbid}` written by the docking
   * run, read back from the run log, gives the pair (ligand, pdbid).
   */
  lemma SuccessLineReadBack(lig: string, pdbid: string)
    requires PlainLigand(lig) && pdbid != [] && AllSafe(pdbid)
    ensures LedgerPair(SuccessText(lig, pdbid) + "\n") == Some((lig, pdbid))
  {
    SuccessTextWritten(lig, pdbid);
    LedgerOfWritten(SuccessText(lig, pdbid));
    SuccessTextGroups(lig, pdbid);
    StripNoop(lig);
    StripSafe(pdbid);
  }

  /** The failure line `❌ {ligand} vs {pdbid}: {err}` up to its error text. */
  function FailureHead(lig: string, pdbid: string): string
  {
    ['\U{274C}'] + " " + lig + " vs " + pdbid + ": "
  }

  /** A failure line whose error text `pre` ends in ` → g`, without the newline. */
  function FailureText(lig: string, pdbid: string, pre: string, g: string): string
  {
    (FailureHead(lig, pdbid) + pre) + (" " + [Arrow] + " " + g)
  }

  /** What the failure line's fields must avoid for it to read back as below. */
  predicate PlainField(f: string) { Arrow !in f && '\n' !in f && '>' !in f }

  lemma FailureBody(lig: string, pdbid: string, pre: string)
    requires PlainField(lig) && PlainField(pdbid) && PlainField(pre)
    requires pre != [] && !IsSpace(pre[|pre| - 1])
    ensures var body := FailureHead(lig, pdbid) + pre;
      body[0] == '\U{274C}' && !IsSpace(body[|body| - 1]) && PlainField(body)
  {
    var body := FailureHead(lig, pdbid) + pre;
    assert body[|body| - 1] == pre[|pre| - 1];
    assert forall c :: c in body ==> c in lig || c in pdbid || c in pre || c in FailureHead("", "");
  }

  lemma FailureTextWritten(lig: string, pdbid: string, pre: string, g: string)
    requires PlainField(lig) && PlainField(pdbid) && PlainField(pre)
    requires pre != [] && !IsSpace(pre[|pre| - 1]) && g != [] && AllSafe(g)
    ensures var t := FailureText(lig, pdbid, pre, g);
      t != [] && !IsSpace(t[0]) && !IsSpace(t[|t| - 1]) && '>' !in t && Arrow in t
  {
    var body := FailureHead(lig, pdbid) + pre;
    var t := FailureText(lig, pdbid, pre, g);
    FailureBody(lig, pdbid, pre);
    NoGreaterSafe(g);
    assert t[0] == body[0];
    assert t[|t| - 1] == g[|g| - 1];
    assert SafeChar(g[|g| - 1]);
    assert forall c :: c in t ==> c in body || c in g || c in [Arrow] + " ";
    assert t[|body| + 1] == Arrow;
  }

  lemma FailureTextGroups(lig: string, pdbid: string, pre: string, g: string)
    requires PlainField(lig) && PlainField(pdbid) && PlainField(pre)
    requires pre != [] && !IsSpace(pre[|pre| - 1]) && g != [] && AllSafe(g)
    ensures OkLine(FailureText(lig, pdbid, pre, g)) == Some((FailureHead(lig, pdbid) + pre, g))
  {
    var body := FailureHead(lig, pdbid) + pre;
    var tail := " " + [Arrow] + " " + g;
    var t := "" + body + tail;
    assert t == FailureText(lig, pdbid, pre, g);
    FailureBody(lig, pdbid, pre);
    ArrowTailOf(g);
    assert t[0] == body[0];
    assert Starts(t)[0] == 0 by {
      assert !LeadChar(t[0]) && !IsSpace(t[0]);
    }
    OkLineShape("", body, tail, g);
  }

  /**
   * The `✅` marker is not required: a failure line whose error text ends in
   * ` → name` is read as a completed pair too, its first group being
   * everything before the arrow.
   */
  lemma FailureLineReadBack(lig: string, pdbid: string, pre: string, g: string)
    requires PlainField(lig) && PlainField(pdbid) && PlainField(pre)
    requires pre != [] && !IsSpace(pre[|pre| - 1]) && g != [] && AllSafe(g)
    ensures LedgerPair(FailureText(lig, pdbid, pre, g) + "\n") == Some((FailureHead(lig, pdbid) + pre, g))
  {
    FailureTextWritten(lig, pdbid, pre, g);
    LedgerOfWritten(FailureText(lig, pdbid, pre, g));
    FailureTextGroups(lig, pdbid, pre, g);
    FailureBody(lig, pdbid, pre);
    StripNoop(FailureHead(lig, pdbid) + pre);
    StripSafe(g);
  }
}
