/**
 * What both result parsers (4A_Parse_VinaResults.py and 4B_Parse_VinaResults.py)
 * share: the `VINA_RE` score-line pattern, pose numbering over a file's lines,
 * and the (receptor, affinity) order of the final table.
 *
 * Affinities are the exact decimals written in the matched text; Python's
 * binary floating point is not modelled.
 */
module VinaResults {
  import opened Wrappers
  import opened Text

  // ---------- scanning helpers ----------

  /** The length of the longest prefix of `s` whose characters all satisfy `p`. */
  function Span(s: string, p: char -> bool): (n: nat)
    ensures n <= |s|
    ensures forall k :: 0 <= k < n ==> p(s[k])
    ensures n == |s| || !p(s[n])
  {
    if s != [] && p(s[0]) then 1 + Span(s[1..], p) else 0
  }

  /** A prefix that stops where `p` first fails is the span `Span` measures. */
  lemma {:induction false} SpanIs(a: string, b: string, p: char -> bool)
    requires forall k :: 0 <= k < |a| ==> p(a[k])
    requires b == [] || !p(b[0])
    ensures Span(a + b, p) == |a|
  {
    if a != [] {
      assert (a + b)[1..] == a[1..] + b;
      SpanIs(a[1..], b, p);
    } else {
      assert a + b == b;
    }
  }

  lemma Peel(w: string, x: string)
    ensures StartsWith(w + x, w) && (w + x)[|w|..] == x
  {
    assert (w + x)[..|w|] == w;
  }

  predicate AllSpace(s: string) { forall k :: 0 <= k < |s| ==> IsSpace(s[k]) }

  // ---------- decimal numbers ----------

  /** The number text `-?\d+(\.\d+)?`, kept as its parts. */
  datatype Decimal = Decimal(negative: bool, whole: string, frac: string)

  predicate WellFormed(d: Decimal)
  {
    IsDigits(d.whole) && AllDigits(d.frac)
  }

  /** The number as it is written. */
  function DecimalText(d: Decimal): string
  {
    (if d.negative then "-" else "") + d.whole + (if d.frac == [] then "" else "." + d.frac)
  }

  function Pow10(n: nat): (r: nat)
    ensures r >= 1
  {
    if n == 0 then 1 else 10 * Pow10(n - 1)
  }

  /** `float(text)`, exactly. */
  function DecimalValue(d: Decimal): real
    requires WellFormed(d)
  {
    var magnitude := DigitsValue(d.whole) as real + DigitsValue(d.frac) as real / Pow10(|d.frac|) as real;
    if d.negative then -magnitude else magnitude
  }

  // ---------- VINA_RE ----------

  /** `(\.\d+)?` at the start of `v`, greedy: the digits of the fraction, or none. */
  function Fraction(v: string): (f: string)
    ensures AllDigits(f)
  {
    if |v| >= 2 && v[0] == '.' && IsDigit(v[1]) then v[1..][..Span(v[1..], IsDigit)] else ""
  }

  /** `\d+(\.\d+)?` at the start of `u`: the whole part and the fraction. */
  function Unsigned(u: string): (r: Option<(string, string)>)
    ensures r.Some? ==> IsDigits(r.value.0) && AllDigits(r.value.1)
  {
    var w := Span(u, IsDigit);
    if w == 0 then None else Some((u[..w], Fraction(u[w..])))
  }

  /**
   * `-?\d+(\.\d+)?` at the start of `t`, greedy: a fraction is taken only when
   * a digit follows the point. A `-` not followed by a digit fails the match.
   */
  function NumberPrefix(t: string): (r: Option<Decimal>)
    ensures r.Some? ==> WellFormed(r.value)
  {
    var neg := t != [] && t[0] == '-';
    match Unsigned(if neg then t[1..] else t)
    case None => None
    case Some((whole, frac)) => Some(Decimal(neg, whole, frac))
  }

  /** `w\s+` at the start of `s`: what follows the literal and its nonempty whitespace run. */
  function Keyword(s: string, w: string): (r: Option<string>)
    ensures r.Some? ==> |r.value| < |s| - |w|
  {
    if !StartsWith(s, w) then None
    else
      var rest := s[|w|..];
      var n := Span(rest, IsSpace);
      if n == 0 then None else Some(rest[n..])
  }

  /**
   * `VINA_RE.match(line)`, anchored at column 0: `REMARK`, whitespace, `VINA`,
   * whitespace, `RESULT:`, whitespace, then the number; whatever follows is
   * ignored. Each `\s+` must take its maximal run, since the next literal is
   * not whitespace.
   */
  function VinaScore(line: string): (r: Option<Decimal>)
    ensures r.Some? ==> WellFormed(r.value) && StartsWith(line, "REMARK")
  {
    match Keyword(line, "REMARK")
    case None => None
    case Some(t1) =>
      match Keyword(t1, "VINA")
      case None => None
      case Some(t2) =>
        match Keyword(t2, "RESULT:")
        case None => None
        case Some(t3) => NumberPrefix(t3)
  }

  /** A score line as Vina writes it, with any whitespace runs and any trailing text. */
  function ScoreLine(ws1: string, ws2: string, ws3: string, num: string, rest: string): string
  {
    "REMARK" + (ws1 + ("VINA" + (ws2 + ("RESULT:" + (ws3 + (num + rest))))))
  }

  /** `rest` cannot extend the number before it: no digit, and no `.digit` after a whole number. */
  predicate Ends(d: Decimal, rest: string)
  {
    && (rest == [] || !IsDigit(rest[0]))
    && (d.frac == [] ==> !(|rest| >= 2 && rest[0] == '.' && IsDigit(rest[1])))
  }

  lemma FractionText(frac: string, rest: string)
    requires AllDigits(frac)
    requires frac == [] ==> !(|rest| >= 2 && rest[0] == '.' && IsDigit(rest[1]))
    requires frac != [] ==> rest == [] || !IsDigit(rest[0])
    ensures Fraction((if frac == [] then "" else "." + frac) + rest) == frac
  {
    if frac != [] {
      var v := "." + frac + rest;
      assert v == "." + (frac + rest);
      Peel(".", frac + rest);
      assert v[1] == frac[0];
      SpanIs(frac, rest, IsDigit);
      Peel(frac, rest);
    } else {
      assert "" + rest == rest;
    }
  }

  lemma UnsignedText(whole: string, frac: string, rest: string)
    requires IsDigits(whole) && AllDigits(frac) && (rest == [] || !IsDigit(rest[0]))
    requires frac == [] ==> !(|rest| >= 2 && rest[0] == '.' && IsDigit(rest[1]))
    ensures Unsigned(whole + ((if frac == [] then "" else "." + frac) + rest)) == Some((whole, frac))
  {
    var v := (if frac == [] then "" else "." + frac) + rest;
    assert v == [] || !IsDigit(v[0]) by {
      if frac != [] {
        assert v[0] == '.';
      } else {
        assert v == rest;
      }
    }
    SpanIs(whole, v, IsDigit);
    Peel(whole, v);
    FractionText(frac, rest);
  }

  /** Reading the number back from its own text. */
  lemma NumberPrefixText(d: Decimal, rest: string)
    requires WellFormed(d) && Ends(d, rest)
    ensures NumberPrefix(DecimalText(d) + rest) == Some(d)
  {
    var sign := if d.negative then "-" else "";
    var u := d.whole + ((if d.frac == [] then "" else "." + d.frac) + rest);
    DecimalTextSplit(sign, d.whole, if d.frac == [] then "" else "." + d.frac, rest);
    UnsignedText(d.whole, d.frac, rest);
    SignedText(d.negative, u);
    NumberPrefixOf(sign + u, d.negative, u, d);
  }

  lemma DecimalTextSplit(sign: string, whole: string, point: string, rest: string)
    ensures sign + whole + point + rest == sign + (whole + (point + rest))
  {
  }

  lemma NumberPrefixOf(t: string, negative: bool, u: string, d: Decimal)
    requires (t != [] && t[0] == '-') == negative && (if negative then t[1..] else t) == u
    requires Unsigned(u) == Some((d.whole, d.frac)) && d.negative == negative
    ensures NumberPrefix(t) == Some(d)
  {
  }

  lemma SignedText(negative: bool, u: string)
    requires u != [] && IsDigit(u[0])
    ensures var t := (if negative then "-" else "") + u;
      (t != [] && t[0] == '-') == negative && (if negative then t[1..] else t) == u
  {
    if negative {
      Peel("-", u);
    } else {
      assert "" + u == u;
    }
  }

  lemma KeywordPeel(w: string, ws: string, x: string)
    requires ws != [] && AllSpace(ws) && (x == [] || !IsSpace(x[0]))
    ensures Keyword(w + (ws + x), w) == Some(x)
  {
    Peel(w, ws + x);
    SpanIs(ws, x, IsSpace);
    assert (ws + x)[|ws|..] == x;
  }

  /** Past the three literals and their whitespace, the line is the number and what follows. */
  lemma ScoreLineSteps(ws1: string, ws2: string, ws3: string, num: string, rest: string)
    requires ws1 != [] && ws2 != [] && ws3 != [] && AllSpace(ws1) && AllSpace(ws2) && AllSpace(ws3)
    requires num != [] && !IsSpace(num[0])
    ensures VinaScore(ScoreLine(ws1, ws2, ws3, num, rest)) == NumberPrefix(num + rest)
  {
    var x3 := num + rest;
    var x2 := "RESULT:" + (ws3 + x3);
    var x1 := "VINA" + (ws2 + x2);
    KeywordPeel("REMARK", ws1, x1);
    KeywordPeel("VINA", ws2, x2);
    KeywordPeel("RESULT:", ws3, x3);
  }

  /**
   * Round trip: a score line built from nonempty whitespace runs, a well-formed
   * number and trailing text that does not extend the number gives back that
   * number.
   */
  lemma ScoreLineScore(ws1: string, ws2: string, ws3: string, d: Decimal, rest: string)
    requires ws1 != [] && ws2 != [] && ws3 != [] && AllSpace(ws1) && AllSpace(ws2) && AllSpace(ws3)
    requires WellFormed(d) && Ends(d, rest)
    ensures VinaScore(ScoreLine(ws1, ws2, ws3, DecimalText(d), rest)) == Some(d)
  {
    var num := DecimalText(d);
    assert num != [] && !IsSpace(num[0]) by {
      assert num[0] == (if d.negative then '-' else d.whole[0]);
    }
    ScoreLineSteps(ws1, ws2, ws3, num, rest);
    NumberPrefixText(d, rest);
  }

  /** An exponent is not part of the pattern: `-7.5e3` scores -7.5, the `e3` being ignored trailing text. */
  lemma ExponentIgnored(ws1: string, ws2: string, ws3: string, d: Decimal, exp: string)
    requires ws1 != [] && ws2 != [] && ws3 != [] && AllSpace(ws1) && AllSpace(ws2) && AllSpace(ws3)
    requires WellFormed(d)
    ensures VinaScore(ScoreLine(ws1, ws2, ws3, DecimalText(d) + "e", exp)) == Some(d)
  {
    assert ScoreLine(ws1, ws2, ws3, DecimalText(d) + "e", exp) == ScoreLine(ws1, ws2, ws3, DecimalText(d), "e" + exp);
    ScoreLineScore(ws1, ws2, ws3, d, "e" + exp);
  }

  /** A leading `+` is not accepted. */
  lemma PlusRejected(ws1: string, ws2: string, ws3: string, rest: string)
    requires ws1 != [] && ws2 != [] && ws3 != [] && AllSpace(ws1) && AllSpace(ws2) && AllSpace(ws3)
    ensures VinaScore(ScoreLine(ws1, ws2, ws3, "+", rest)) == None
  {
    ScoreLineSteps(ws1, ws2, ws3, "+", rest);
    assert ("+" + rest)[0] == '+';
  }

  // ---------- poses ----------

  /** `(pose_idx, affinity)` */
  datatype Pose = Pose(index: nat, affinity: Decimal)

  /** The scores of the matching lines, in file order. */
  function Scores(lines: seq<string>): (r: seq<Decimal>)
    ensures forall k :: 0 <= k < |r| ==> WellFormed(r[k])
  {
    if lines == [] then []
    else
      var prev := Scores(lines[..|lines| - 1]);
      match VinaScore(lines[|lines| - 1])
      case Some(d) => prev + [d]
      case None => prev
  }

  /** Scores numbered from 1 in order. */
  function Numbered(scores: seq<Decimal>): (r: seq<Pose>)
    ensures |r| == |scores|
    ensures forall k :: 0 <= k < |r| ==> r[k] == Pose(k + 1, scores[k])
  {
    seq(|scores|, k requires 0 <= k < |scores| => Pose(k + 1, scores[k]))
  }

  /** What the `for line in fh` loop collects: the matching lines' scores numbered 1, 2, ..., k in file order. */
  function Poses(lines: seq<string>): seq<Pose>
  {
    Numbered(Scores(lines))
  }

  /** A line adds a pose exactly when it matches, and the new pose is numbered one past the last. */
  lemma PosesSnoc(lines: seq<string>, line: string)
    ensures var p := Poses(lines);
      Poses(lines + [line]) == if VinaScore(line).Some? then p + [Pose(|p| + 1, VinaScore(line).value)] else p
  {
    ScoresSnoc(lines, line, VinaScore(line));
    if VinaScore(line).Some? {
      NumberedSnoc(Scores(lines), VinaScore(line).value);
    }
  }

  lemma ScoresSnoc(lines: seq<string>, line: string, m: Option<Decimal>)
    requires m == VinaScore(line)
    ensures Scores(lines + [line]) == Scores(lines) + (if m.Some? then [m.value] else [])
  {
    assert (lines + [line])[..|lines|] == lines;
  }

  lemma NumberedSnoc(scores: seq<Decimal>, d: Decimal)
    ensures Numbered(scores + [d]) == Numbered(scores) + [Pose(|scores| + 1, d)]
  {
    var l, r := Numbered(scores + [d]), Numbered(scores) + [Pose(|scores| + 1, d)];
    forall k | 0 <= k < |l| ensures l[k] == r[k] {
      if k < |scores| {
        assert (scores + [d])[k] == scores[k];
      }
    }
  }

  /** Scores gathered before an exception are a prefix of the scores of the whole file. */
  lemma {:induction false} ScoresPrefix(a: seq<string>, b: seq<string>)
    ensures |Scores(a)| <= |Scores(a + b)| && Scores(a + b)[..|Scores(a)|] == Scores(a)
    decreases |b|
  {
    if b == [] {
      assert a + b == a;
    } else {
      var b' := b[..|b| - 1];
      assert (a + b)[..|a + b| - 1] == a + b';
      ScoresPrefix(a, b');
    }
  }

  /** Reading stops early on an exception: the poses gathered are a prefix of the full list. */
  lemma PosesPrefix(a: seq<string>, b: seq<string>)
    ensures |Poses(a)| <= |Poses(a + b)| && Poses(a + b)[..|Poses(a)|] == Poses(a)
  {
    ScoresPrefix(a, b);
  }

  /** The loop of `parse_vina_pdbqt` over the lines it managed to read. */
  method CollectPoses(lines: seq<string>) returns (poses: seq<Pose>)
    ensures poses == Poses(lines)
  {
    poses := [];
    var poseIdx := 0;
    var i := 0;
    while i < |lines|
      invariant i <= |lines|
      invariant poses == Poses(lines[..i]) && poseIdx == |poses|
    {
      var m := VinaScore(lines[i]);
      assert lines[..i + 1] == lines[..i] + [lines[i]];
      PosesSnoc(lines[..i], lines[i]);
      if m.Some? {
        poseIdx := poseIdx + 1;
        poses := poses + [Pose(poseIdx, m.value)];
      }
      i := i + 1;
    }
    assert lines[..i] == lines;
  }

  /**
   * A file as `open`/iteration delivers it: the lines read before the end of
   * the file, or before the exception when `raised` (a missing or unreadable
   * file raises before any line).
   */
  datatype FileRead = FileRead(lines: seq<string>, raised: bool)

  // ---------- the final order ----------

  /** The sort key `(receptor, affinity)`. */
  datatype Key = Key(receptor: string, affinity: real)

  /** `not (k2 < k1)` for Python tuples: receptor first, then affinity ascending. */
  predicate KeyLe(k1: Key, k2: Key)
  {
    LexLt(k1.receptor, k2.receptor) || (k1.receptor == k2.receptor && k1.affinity <= k2.affinity)
  }

  lemma KeyLeTotal(k1: Key, k2: Key)
    ensures KeyLe(k1, k2) || KeyLe(k2, k1)
  {
    if k1.receptor != k2.receptor {
      LexLtTotal(k1.receptor, k2.receptor);
    }
  }

  lemma KeyLeTransitive(k1: Key, k2: Key, k3: Key)
    requires KeyLe(k1, k2) && KeyLe(k2, k3)
    ensures KeyLe(k1, k3)
  {
    if LexLt(k1.receptor, k2.receptor) && LexLt(k2.receptor, k3.receptor) {
      LexLtTransitive(k1.receptor, k2.receptor, k3.receptor);
    }
  }

  /** Keys in order name receptors in `LexLe` order, and equal receptors in affinity order. */
  lemma KeyLeMeans(k1: Key, k2: Key)
    requires KeyLe(k1, k2)
    ensures LexLe(k1.receptor, k2.receptor)
    ensures k1.receptor == k2.receptor ==> k1.affinity <= k2.affinity
  {
    if LexLt(k1.receptor, k2.receptor) {
      LexLtIrreflexive(k1.receptor);
    }
  }
}
