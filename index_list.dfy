/**
 * `parse_index_list(s, n)`, copied into three scripts: a comma-separated list of
 * numbers and `a-b` ranges, turned into sorted, distinct indices below `n`.
 * 1_ConformerGeneration.py reads the numbers as 0-based; 1B_confgen_batch.py and
 * 3B_ServerDocks.py read them as 1-based. Both are the one parser below with
 * `base` 0 or 1: a number `k` selects index `k - base` when it lies in
 * `[base, n + base)`.
 */
module IndexList {
  import opened Text

  /** Indices `j < n` whose number `j + base` lies in `[lo, end)`. */
  function Window(lo: nat, end: nat, n: nat, base: nat): set<nat>
  {
    set j: nat | j < n && InWindow(j, lo, end, base)
  }

  predicate InWindow(j: nat, lo: nat, end: nat, base: nat) { lo <= j + base < end }

  /** What one stripped comma-separated piece says. */
  datatype Token = Range(lo: nat, hi: nat) | Number(k: nat) | Ignored

  /**
   * A piece holding `-` is split at the first one and both sides, stripped, must be
   * digits (bounds in either order); otherwise a piece of digits is one number;
   * anything else, such as `-3`, `x` or `1-2-3`, is ignored.
   */
  function ReadToken(part: string): (t: Token)
    ensures t.Range? ==> t.lo <= t.hi
  {
    if part == [] then Ignored
    else if '-' in part then
      var i := IndexOf(part, '-');
      var a := Strip(part[..i]);
      var b := Strip(part[i + 1..]);
      if IsDigits(a) && IsDigits(b) then
        var x, y := DigitsValue(a), DigitsValue(b);
        if x <= y then Range(x, y) else Range(y, x)
      else Ignored
    else if IsDigits(part) then Number(DigitsValue(part))
    else Ignored
  }

  /** The indices one stripped piece selects. */
  function TokenPicks(part: string, n: nat, base: nat): set<nat>
  {
    match ReadToken(part)
    case Range(lo, hi) => Window(lo, hi + 1, n, base)
    case Number(k) => Window(k, k + 1, n, base)
    case Ignored => {}
  }

  /** The union of what each piece selects. */
  function PartsPicks(parts: seq<string>, n: nat, base: nat): set<nat>
  {
    if parts == [] then {}
    else PartsPicks(parts[..|parts| - 1], n, base) + TokenPicks(Strip(parts[|parts| - 1]), n, base)
  }

  /** Every index the text selects. */
  function IndexSet(s: string, n: nat, base: nat): (r: set<nat>)
  {
    PartsPicks(Split(Strip(s), ','), n, base)
  }

  lemma {:induction false} PartsPicksBound(parts: seq<string>, n: nat, base: nat)
    ensures forall j :: j in PartsPicks(parts, n, base) ==> j < n
  {
    if parts != [] {
      PartsPicksBound(parts[..|parts| - 1], n, base);
    }
  }

  predicate StrictlyIncreasing(r: seq<nat>) { forall i, j :: 0 <= i < j < |r| ==> r[i] < r[j] }

  /** `sorted(picks)` for a set of indices below `bound`. */
  function Ascending(picks: set<nat>, bound: nat): (r: seq<nat>)
    ensures StrictlyIncreasing(r)
    ensures forall x :: x in r <==> x in picks && x < bound
    ensures forall i :: 0 <= i < |r| ==> r[i] < bound
  {
    if bound == 0 then []
    else Ascending(picks, bound - 1) + (if bound - 1 in picks then [bound - 1] else [])
  }

  lemma PartsPicksStep(parts: seq<string>, p: nat, n: nat, base: nat)
    requires p < |parts|
    ensures PartsPicks(parts[..p + 1], n, base) == PartsPicks(parts[..p], n, base) + TokenPicks(Strip(parts[p]), n, base)
  {
    assert parts[..p + 1][..p] == parts[..p];
  }

  /** Empty or blank text selects nothing. */
  lemma BlankSelectsNothing(s: string, n: nat, base: nat)
    requires Strip(s) == []
    ensures IndexSet(s, n, base) == {}
  {
    EmptyPieceSelectsNothing(n, base);
  }

  lemma EmptyPieceSelectsNothing(n: nat, base: nat)
    ensures PartsPicks(Split("", ','), n, base) == {}
  {
    assert Split("", ',') == [""];
    assert Strip("") == "";
    assert [""][..0] == [];
  }

  /** The parser: the loop over the comma-separated pieces. */
  method ParseIndexList(s: string, n: nat, base: nat) returns (r: seq<nat>)
    ensures StrictlyIncreasing(r)
    ensures forall i :: 0 <= i < |r| ==> r[i] < n
    ensures forall j :: j in r <==> j in IndexSet(s, n, base)
    ensures r == ParsedIndices(s, n, base)
  {
    var t := Strip(s);
    if t == [] {
      BlankSelectsNothing(s, n, base);
      AscendingEmpty(n);
      return [];
    }
    var parts := Split(t, ',');
    var picks: set<nat> := {};
    var p := 0;
    while p < |parts|
      invariant 0 <= p <= |parts|
      invariant picks == PartsPicks(parts[..p], n, base)
    {
      picks := AddToken(picks, Strip(parts[p]), n, base);
      PartsPicksStep(parts, p, n, base);
      p := p + 1;
    }
    assert parts[..p] == parts;
    assert picks == IndexSet(s, n, base);
    PartsPicksBound(parts, n, base);
    r := Ascending(picks, n);
  }

  /** `sorted(picks)` after the loop: what the parser returns. */
  function ParsedIndices(s: string, n: nat, base: nat): seq<nat>
  {
    Ascending(IndexSet(s, n, base), n)
  }

  /** One stripped piece: a range adds each of its numbers, a single number adds itself. */
  method AddToken(picks: set<nat>, part: string, n: nat, base: nat) returns (out: set<nat>)
    ensures out == picks + TokenPicks(part, n, base)
  {
    out := picks;
    match ReadToken(part)
    case Range(lo, hi) =>
      out := AddRange(picks, lo, hi, n, base);
    case Number(k) =>
      if base <= k && k < n + base {
        out := picks + {k - base};
      }
      assert Window(k, k + 1, n, base) == if base <= k && k < n + base then {k - base} else {};
    case Ignored =>
  }

  /** `for k in range(lo, hi + 1)`, adding each number that selects an index. */
  method AddRange(picks: set<nat>, lo: nat, hi: nat, n: nat, base: nat) returns (out: set<nat>)
    requires lo <= hi
    ensures out == picks + Window(lo, hi + 1, n, base)
  {
    out := picks;
    var k := lo;
    while k <= hi
      invariant lo <= k <= hi + 1
      invariant out == picks + Window(lo, k, n, base)
    {
      if base <= k && k < n + base {
        out := out + {k - base};
      }
      assert Window(lo, k + 1, n, base) == Window(lo, k, n, base) + (if base <= k && k < n + base then {k - base} else {});
      k := k + 1;
    }
  }

  // ---------- properties ----------

  /** The 1-based copies are the 0-based one shifted: index `j` is picked by 1-based text exactly when `j + 1` is picked by 0-based text over one more slot. */
  lemma {:induction false} OneBasedIsShifted(s: string, n: nat)
    ensures forall j: nat :: j in IndexSet(s, n, 1) <==> j + 1 in IndexSet(s, n + 1, 0)
  {
    PartsShifted(Split(Strip(s), ','), n);
  }

  lemma {:induction false} PartsShifted(parts: seq<string>, n: nat)
    ensures forall j: nat :: j in PartsPicks(parts, n, 1) <==> j + 1 in PartsPicks(parts, n + 1, 0)
  {
    if parts != [] {
      PartsShifted(parts[..|parts| - 1], n);
      TokenShifted(Strip(parts[|parts| - 1]), n);
    }
  }

  lemma TokenShifted(t: string, n: nat)
    ensures forall j: nat :: j in TokenPicks(t, n, 1) <==> j + 1 in TokenPicks(t, n + 1, 0)
  {
    match ReadToken(t)
    case Range(lo, hi) =>
      WindowShifted(lo, hi + 1, n);
    case Number(k) =>
      WindowShifted(k, k + 1, n);
    case Ignored =>
  }

  lemma WindowShifted(lo: nat, end: nat, n: nat)
    ensures forall j: nat :: j in Window(lo, end, n, 1) <==> j + 1 in Window(lo, end, n + 1, 0)
  {
    forall j: nat ensures j in Window(lo, end, n, 1) <==> j + 1 in Window(lo, end, n + 1, 0) {
      assert InWindow(j, lo, end, 1) <==> InWindow(j + 1, lo, end, 0);
    }
  }

  /** Index 0 is never picked by 0-based text that only names `0` through the 1-based reading. */
  lemma ZeroDiffers(n: nat)
    requires n > 0
    ensures IndexSet("0", n, 0) == {0} && IndexSet("0", n, 1) == {}
  {
    ZeroPicks(n, 0);
    ZeroPicks(n, 1);
    ZeroWindow(n);
  }

  /** The text `0` picks what the number 0 selects. */
  lemma ZeroPicks(n: nat, base: nat)
    ensures IndexSet("0", n, base) == Window(0, 1, n, base)
  {
    ZeroIsOnePiece();
    SinglePiece("0", n, base);
    ZeroTokenPicks(n, base);
  }

  lemma ZeroIsOnePiece()
    ensures ',' !in "0" && Strip("0") == "0"
  {
    StripNoop("0");
  }

  lemma ZeroTokenPicks(n: nat, base: nat)
    ensures TokenPicks("0", n, base) == Window(0, 1, n, base)
  {
    ZeroToken();
  }

  lemma ZeroWindow(n: nat)
    requires n > 0
    ensures Window(0, 1, n, 0) == {0} && Window(0, 1, n, 1) == {}
  {
    assert InWindow(0, 0, 1, 0);
  }

  lemma ZeroToken()
    ensures ReadToken("0") == Number(0)
  {
    assert DigitsValue("0") == 0 by { assert "0"[..0] == []; }
  }

  /** Text without commas is one piece. */
  lemma SinglePiece(d: string, n: nat, base: nat)
    requires ',' !in d && Strip(d) == d
    ensures IndexSet(d, n, base) == TokenPicks(d, n, base)
  {
    SplitNoComma(d);
    OnePiecePicks(d, n, base);
  }

  lemma PartsPicksSnoc(parts: seq<string>, d: string, n: nat, base: nat)
    ensures PartsPicks(parts + [d], n, base) == PartsPicks(parts, n, base) + TokenPicks(Strip(d), n, base)
  {
    assert (parts + [d])[..|parts|] == parts;
  }

  lemma SplitNoComma(d: string)
    requires ',' !in d
    ensures Split(d, ',') == [d]
  {
    SplitJoin([d], ',');
  }

  lemma OnePiecePicks(d: string, n: nat, base: nat)
    ensures PartsPicks([d], n, base) == TokenPicks(Strip(d), n, base)
  {
    assert [d][..0] == [];
  }

  /** The text a user types for a list of indices: `base`-numbered, comma-separated. */
  function PrintIndices(l: seq<nat>, base: nat): string
  {
    Join(Pieces(l, base), ",")
  }

  function Pieces(l: seq<nat>, base: nat): (r: seq<string>)
    ensures |r| == |l| && forall i :: 0 <= i < |l| ==> r[i] == NatToString(l[i] + base)
  {
    if l == [] then [] else Pieces(l[..|l| - 1], base) + [NatToString(l[|l| - 1] + base)]
  }

  /** Reading back printed indices gives them back: the parser inverts `PrintIndices`. */
  lemma ParsePrinted(l: seq<nat>, n: nat, base: nat)
    requires StrictlyIncreasing(l) && forall i :: 0 <= i < |l| ==> l[i] < n
    ensures ParsedIndices(PrintIndices(l, base), n, base) == l
  {
    var text := PrintIndices(l, base);
    var pieces := Pieces(l, base);
    if l == [] {
      assert text == "";
      StripNoop("");
      BlankSelectsNothing(text, n, base);
      AscendingEmpty(n);
    } else {
      JoinEnds(pieces, ',');
      StripNoop(text);
      forall i | 0 <= i < |pieces| ensures ',' !in pieces[i] {
        NoCommaInDigits(pieces[i]);
      }
      SplitJoin(pieces, ',');
      PiecesPick(l, n, base);
      AscendingOfIncreasing(l, n);
    }
  }

  lemma AscendingEmpty(n: nat)
    ensures Ascending({}, n) == []
  {
    if n > 0 {
      AscendingEmpty(n - 1);
    }
  }

  lemma NoCommaInDigits(d: string)
    requires IsDigits(d)
    ensures ',' !in d && '-' !in d
  {
  }

  /** A join of nonempty pieces starts with the first piece's first character and ends with the last piece's last. */
  lemma {:induction false} JoinEnds(pieces: seq<string>, sep: char)
    requires |pieces| > 0 && forall i :: 0 <= i < |pieces| ==> |pieces[i]| > 0
    ensures var j := Join(pieces, [sep]);
      |j| > 0 && j[0] == pieces[0][0] && j[|j| - 1] == pieces[|pieces| - 1][|pieces[|pieces| - 1]| - 1]
  {
    if |pieces| > 1 {
      JoinEnds(pieces[1..], sep);
    }
  }

  /** Each printed piece picks exactly its own index. */
  lemma {:induction false} PiecesPick(l: seq<nat>, n: nat, base: nat)
    requires forall i :: 0 <= i < |l| ==> l[i] < n
    ensures PartsPicks(Pieces(l, base), n, base) == Elems(l)
  {
    if l != [] {
      var init := l[..|l| - 1];
      var last := l[|l| - 1];
      var earlier := Pieces(init, base);
      var d := NatToString(last + base);
      assert Pieces(l, base) == earlier + [d];
      calc {
        PartsPicks(Pieces(l, base), n, base);
        PartsPicks(earlier + [d], n, base);
        { PartsPicksSnoc(earlier, d, n, base); }
        PartsPicks(earlier, n, base) + TokenPicks(Strip(d), n, base);
        { PiecesPick(init, n, base); PiecePicksItself(last, n, base); }
        Elems(init) + {last};
        { ElemsSnoc(l); }
        Elems(l);
      }
    }
  }

  function Elems(l: seq<nat>): set<nat> { set x | x in l }

  lemma ElemsSnoc(l: seq<nat>)
    requires l != []
    ensures Elems(l) == Elems(l[..|l| - 1]) + {l[|l| - 1]}
  {
    assert l == l[..|l| - 1] + [l[|l| - 1]];
  }

  lemma PiecePicksItself(v: nat, n: nat, base: nat)
    requires v < n
    ensures TokenPicks(Strip(NatToString(v + base)), n, base) == {v}
  {
    var d := NatToString(v + base);
    StripNoop(d);
    NoCommaInDigits(d);
    NatToStringValue(v + base);
    assert ReadToken(d) == Number(v + base);
    assert Window(v + base, v + base + 1, n, base) == {v} by {
      assert InWindow(v, v + base, v + base + 1, base);
    }
  }

  /** A strictly increasing list below `n` is the sorted list of its own elements. */
  lemma AscendingOfIncreasing(l: seq<nat>, n: nat)
    requires StrictlyIncreasing(l) && forall i :: 0 <= i < |l| ==> l[i] < n
    ensures Ascending(Elems(l), n) == l
  {
    var a := Ascending(Elems(l), n);
    assert forall x :: x in a <==> x in l;
    IncreasingUnique(a, l);
  }

  /** Two strictly increasing lists with the same elements are equal. */
  lemma {:induction false} IncreasingUnique(a: seq<nat>, b: seq<nat>)
    requires StrictlyIncreasing(a) && StrictlyIncreasing(b)
    requires forall x :: x in a <==> x in b
    ensures a == b
    decreases |a|
  {
    if a != [] {
      assert a[0] in b;
    }
    if b != [] {
      assert b[0] in a;
    }
    if a != [] && b != [] {
      assert a[0] == b[0];
      forall x ensures x in a[1..] <==> x in b[1..] {
        if x in a[1..] {
          var k :| 1 <= k < |a| && a[k] == x;
          assert x in b;
          var m :| 0 <= m < |b| && b[m] == x;
        }
        if x in b[1..] {
          var k :| 1 <= k < |b| && b[k] == x;
          assert x in a;
          var m :| 0 <= m < |a| && a[m] == x;
        }
      }
      IncreasingUnique(a[1..], b[1..]);
      assert a == [a[0]] + a[1..] && b == [b[0]] + b[1..];
    }
  }
}
