/**
 * The name sanitisers copied across the pipeline's scripts. Two families:
 * per-character replacement followed by `strip("_")` with a fallback
 * (3_Complete_batch_docking.py, 1_ConformerGeneration.py, 0_LigDirect.py), and
 * `re.sub(r"[^A-Za-z0-9._-]+", "_", ...)`, which collapses each run of
 * disallowed characters into one underscore (1B_confgen_batch.py, lsf_templates.py).
 */
module Sanitize {
  import opened Text
  import opened Wrappers

  // ---------- per-character replacement ----------

  /** Characters the per-character sanitisers keep: `c.isalnum() or c in "-_."`. */
  predicate TagChar(c: char) { IsAlnum(c) || c == '-' || c == '_' || c == '.' }

  predicate AllTagChars(s: string) { forall i :: 0 <= i < |s| ==> TagChar(s[i]) }

  /** A sanitised name: nonempty, only kept characters, no underscore at either end. */
  predicate IsCleanTag(s: string)
  {
    |s| > 0 && AllTagChars(s) && s[0] != '_' && s[|s| - 1] != '_'
  }

  /** Each character outside the kept set becomes `_`. */
  function ReplaceDisallowed(s: string): (r: string)
    ensures |r| == |s| && AllTagChars(r)
    ensures forall i :: 0 <= i < |s| ==> (TagChar(s[i]) ==> r[i] == s[i]) && (!TagChar(s[i]) ==> r[i] == '_')
  {
    if s == [] then [] else [if TagChar(s[0]) then s[0] else '_'] + ReplaceDisallowed(s[1..])
  }

  /** `"".join(...).strip("_") or fallback` */
  function SanitizeWith(s: string, fallback: string): string
  {
    var t := StripSet(ReplaceDisallowed(s), {'_'});
    if t == [] then fallback else t
  }

  lemma SanitizeWithClean(s: string, fallback: string)
    requires IsCleanTag(fallback)
    ensures IsCleanTag(SanitizeWith(s, fallback))
  {
    var m := ReplaceDisallowed(s);
    var t := StripSet(m, {'_'});
    StripSetShape(m, {'_'});
    StripSetKeeps(m, {'_'});
    if t != [] {
      forall i | 0 <= i < |t| ensures TagChar(t[i]) {
        assert t[i] in t;
      }
    }
  }

  /** A clean name is a fixed point; in particular sanitising twice is sanitising once. */
  lemma SanitizeWithFixed(s: string, fallback: string)
    requires IsCleanTag(s)
    ensures SanitizeWith(s, fallback) == s
  {
    assert ReplaceDisallowed(s) == s;
    StripSetNoop(s, {'_'});
  }

  /** `_sanitize_tag` of 3_Complete_batch_docking.py: fallback "X". */
  function SanitizeTag(s: string): (r: string)
    ensures IsCleanTag(r)
  {
    SanitizeWithClean(s, "X");
    SanitizeWith(s, "X")
  }

  /** `sanitize_id` of 1_ConformerGeneration.py: None or "" is read as "ligand", and so is the fallback. */
  function SanitizeId(name: Option<string>): (r: string)
    ensures IsCleanTag(r)
  {
    var src := if name.None? || name.value == "" then "ligand" else name.value;
    SanitizeWithClean(src, "ligand");
    SanitizeWith(src, "ligand")
  }

  /** `sanitize` of 0_LigDirect.py: fallback "mol". */
  function SanitizeMol(s: string): (r: string)
    ensures IsCleanTag(r)
  {
    SanitizeWithClean(s, "mol");
    SanitizeWith(s, "mol")
  }

  lemma SanitizeTagIdempotent(s: string)
    ensures SanitizeTag(SanitizeTag(s)) == SanitizeTag(s)
  {
    SanitizeWithFixed(SanitizeTag(s), "X");
  }

  lemma SanitizeIdIdempotent(name: Option<string>)
    ensures SanitizeId(Some(SanitizeId(name))) == SanitizeId(name)
  {
    SanitizeWithFixed(SanitizeId(name), "ligand");
  }

  lemma SanitizeMolIdempotent(s: string)
    ensures SanitizeMol(SanitizeMol(s)) == SanitizeMol(s)
  {
    SanitizeWithFixed(SanitizeMol(s), "mol");
  }

  /** Only the fallback text differs between the three copies: they agree on every input that keeps a character. */
  lemma SanitizersAgree(s: string)
    requires s != [] && StripSet(ReplaceDisallowed(s), {'_'}) != []
    ensures SanitizeTag(s) == SanitizeMol(s) == SanitizeId(Some(s))
  {
  }

  /** The fallbacks themselves: a name made only of replaced characters and underscores. */
  lemma SanitizerFallbacks()
    ensures SanitizeTag("_ _") == "X" && SanitizeMol("_ _") == "mol" && SanitizeId(Some("_ _")) == "ligand"
  {
    assert !TagChar(' ');
    assert ReplaceDisallowed("_ _") == "___";
    OnlyUnderscores("___");
  }

  /** A missing or empty name reads as "ligand", which is already clean. */
  lemma SanitizeIdMissing()
    ensures SanitizeId(None) == "ligand" && SanitizeId(Some("")) == "ligand"
  {
    assert IsCleanTag("ligand");
    SanitizeWithFixed("ligand", "ligand");
  }

  lemma {:induction false} OnlyUnderscores(s: string)
    requires forall i :: 0 <= i < |s| ==> s[i] == '_'
    ensures StripSet(s, {'_'}) == []
  {
    if s != [] {
      OnlyUnderscores(s[1..]);
    }
  }

  // ---------- collapsing runs ----------

  /** The regex class `[A-Za-z0-9._-]`. */
  predicate SafeChar(c: char) { IsAsciiAlnum(c) || c == '.' || c == '_' || c == '-' }

  predicate AllSafe(s: string) { forall i :: 0 <= i < |s| ==> SafeChar(s[i]) }

  /** Drops the leading run of unsafe characters. */
  function DropUnsafe(s: string): (r: string)
    ensures |r| <= |s| && r == s[|s| - |r|..]
    ensures r == [] || SafeChar(r[0])
  {
    if s != [] && !SafeChar(s[0]) then DropUnsafe(s[1..]) else s
  }

  /** `re.sub(r"[^A-Za-z0-9._-]+", "_", s)`: each maximal run of unsafe characters becomes one `_`. */
  function CollapseRuns(s: string): (r: string)
    ensures AllSafe(r)
    decreases |s|
  {
    if s == [] then []
    else if SafeChar(s[0]) then [s[0]] + CollapseRuns(s[1..])
    else "_" + CollapseRuns(DropUnsafe(s[1..]))
  }

  /** Safe characters are kept: a safe string is its own image. */
  lemma {:induction false} CollapseSafe(s: string)
    requires AllSafe(s)
    ensures CollapseRuns(s) == s
  {
    if s != [] {
      CollapseSafe(s[1..]);
    }
  }

  lemma CollapseIdempotent(s: string)
    ensures CollapseRuns(CollapseRuns(s)) == CollapseRuns(s)
  {
    CollapseSafe(CollapseRuns(s));
  }

  /** A whole run of unsafe characters, however long, becomes exactly one underscore. */
  lemma {:induction false} CollapseRun(u: string, rest: string)
    requires u != [] && forall i :: 0 <= i < |u| ==> !SafeChar(u[i])
    requires rest == [] || SafeChar(rest[0])
    ensures CollapseRuns(u + rest) == "_" + CollapseRuns(rest)
  {
    assert (u + rest)[1..] == u[1..] + rest;
    DropRun(u[1..], rest);
  }

  lemma {:induction false} DropRun(u: string, rest: string)
    requires forall i :: 0 <= i < |u| ==> !SafeChar(u[i])
    requires rest == [] || SafeChar(rest[0])
    ensures DropUnsafe(u + rest) == rest
  {
    if u == [] {
      assert u + rest == rest;
    } else {
      assert (u + rest)[1..] == u[1..] + rest;
      DropRun(u[1..], rest);
    }
  }

  /** Collapsing works piece by piece when the seam is a safe character. */
  lemma {:induction false} CollapseConcat(a: string, b: string)
    requires b == [] || SafeChar(b[0])
    ensures CollapseRuns(a + b) == CollapseRuns(a) + CollapseRuns(b)
    decreases |a|
  {
    if a == [] {
      assert a + b == b;
    } else {
      var x, t := a[0], a[1..];
      assert a == [x] + t;
      assert a + b == [x] + (t + b);
      CollapseHead(x, t);
      CollapseHead(x, t + b);
      if SafeChar(x) {
        CollapseConcat(t, b);
        Assoc([x], CollapseRuns(t), CollapseRuns(b));
      } else {
        var d := DropUnsafe(t);
        DropConcat(t, b);
        CollapseConcat(d, b);
        Assoc("_", CollapseRuns(d), CollapseRuns(b));
      }
    }
  }

  lemma Assoc(x: string, y: string, z: string)
    ensures x + (y + z) == (x + y) + z
  {
  }

  /** One step of the collapse on a string split at its first character. */
  lemma CollapseHead(x: char, t: string)
    ensures SafeChar(x) ==> CollapseRuns([x] + t) == [x] + CollapseRuns(t)
    ensures !SafeChar(x) ==> CollapseRuns([x] + t) == "_" + CollapseRuns(DropUnsafe(t))
  {
    assert ([x] + t)[0] == x && ([x] + t)[1..] == t;
  }

  lemma {:induction false} DropConcat(a: string, b: string)
    requires b == [] || SafeChar(b[0])
    ensures DropUnsafe(a + b) == DropUnsafe(a) + b
    decreases |a|
  {
    if a == [] {
      assert a + b == b;
    } else {
      assert (a + b)[1..] == a[1..] + b;
      if !SafeChar(a[0]) {
        DropConcat(a[1..], b);
      }
    }
  }

  /** The two families part ways outside ASCII: an accented letter is kept by one and replaced by the other. */
  lemma FamiliesDiffer()
    ensures SanitizeTag("\U{00E9}") == "\U{00E9}" && CollapseRuns("\U{00E9}") == "_"
  {
    AccentKept();
    AccentCollapsed();
  }

  lemma AccentKept()
    ensures SanitizeTag("\U{00E9}") == "\U{00E9}"
  {
    assert IsCleanTag("\U{00E9}");
    SanitizeWithFixed("\U{00E9}", "X");
  }

  lemma AccentCollapsed()
    ensures CollapseRuns("\U{00E9}") == "_"
  {
    assert !SafeChar('\U{00E9}');
    assert DropUnsafe([]) == [];
  }

  /** The per-character family never merges: two bad characters give two underscores, the collapsing family gives one. */
  lemma RunsDiffer()
    ensures SanitizeTag("a  b") == "a__b" && CollapseRuns("a  b") == "a_b"
  {
    TwoUnderscores();
    OneUnderscore();
  }

  lemma TwoUnderscores()
    ensures SanitizeTag("a  b") == "a__b"
  {
    assert !TagChar(' ');
    assert ReplaceDisallowed("a  b") == "a__b";
    StripSetNoop("a__b", {'_'});
  }

  lemma OneUnderscore()
    ensures CollapseRuns("a  b") == "a_b"
  {
    CollapseSpaces();
    var s := "a  b";
    assert SafeChar(s[0]) && s[1..] == [' ', ' ', 'b'];
  }

  lemma CollapseSpaces()
    ensures CollapseRuns([' ', ' ', 'b']) == ['_', 'b']
  {
    CollapseB();
    DropSpace();
    assert !SafeChar(' ');
    assert [' ', ' ', 'b'][1..] == [' ', 'b'];
  }

  lemma DropSpace()
    ensures DropUnsafe([' ', 'b']) == ['b']
  {
    assert !SafeChar(' ') && SafeChar('b');
    assert [' ', 'b'][1..] == ['b'];
  }

  lemma CollapseB()
    ensures CollapseRuns(['b']) == ['b']
  {
    assert SafeChar('b');
    assert ['b'][1..] == [];
  }
}
