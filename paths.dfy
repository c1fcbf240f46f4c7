/**
 * Paths as the scripts build and take apart: strings with `/` separators.
 * `os.path.join`, `os.path.basename`, `os.path.splitext`, and the pathlib
 * properties `name`, `suffix` and `stem`.
 */
module Paths {
  import opened Text

  /** `os.path.join(a, b)`: an absolute `b` replaces `a`; otherwise one `/` between them. */
  function JoinPath(a: string, b: string): string
  {
    if b != [] && b[0] == '/' then b
    else if a == [] || a[|a| - 1] == '/' then a + b
    else a + "/" + b
  }

  /** Joining a directory that does not end in `/` with a relative name: directory, `/`, name. */
  lemma JoinPathShape(a: string, b: string)
    requires a != [] && a[|a| - 1] != '/' && (b == [] || b[0] != '/')
    ensures JoinPath(a, b) == a + "/" + b
  {
  }

  /** Position just after the last `/`, or 0 when there is none. */
  function AfterLastSlash(p: string): (i: nat)
    ensures i <= |p| && '/' !in p[i..]
    ensures i > 0 ==> p[i - 1] == '/'
  {
    if p == [] then 0
    else if p[|p| - 1] == '/' then |p|
    else
      var i := AfterLastSlash(p[..|p| - 1]);
      assert p[i..] == p[..|p| - 1][i..] + [p[|p| - 1]];
      i
  }

  /** `os.path.basename(p)`: the text after the last `/`. */
  function Basename(p: string): (r: string)
    ensures '/' !in r && EndsWith(p, r)
  {
    p[AfterLastSlash(p)..]
  }

  /** The base name of a joined path is the joined name, when that name has no `/`. */
  lemma BasenameOfJoin(a: string, b: string)
    requires '/' !in b
    ensures Basename(JoinPath(a, b)) == b
  {
    var j := JoinPath(a, b);
    var prefix := if a == [] || a[|a| - 1] == '/' then a else a + "/";
    assert j == prefix + b;
    BasenameAfter(prefix, b);
  }

  lemma BasenameAfter(prefix: string, b: string)
    requires prefix == [] || prefix[|prefix| - 1] == '/'
    requires '/' !in b
    ensures Basename(prefix + b) == b
  {
    var s := prefix + b;
    assert s[|prefix|..] == b;
    AfterLastSlashIs(s, |prefix|);
  }

  /** The last `/` is the one with no `/` after it. */
  lemma {:induction false} AfterLastSlashIs(p: string, k: nat)
    requires k <= |p| && (k == 0 || p[k - 1] == '/') && '/' !in p[k..]
    ensures AfterLastSlash(p) == k
  {
    if k < |p| {
      assert p[|p| - 1] in p[k..];
      var q := p[..|p| - 1];
      assert p[k..] == q[k..] + [p[|p| - 1]];
      AfterLastSlashIs(q, k);
    }
  }

  /** Path components as pathlib sees them: empty pieces and `.` pieces dropped. */
  function Components(p: string): seq<string>
  {
    KeepParts(Split(p, '/'))
  }

  function KeepParts(parts: seq<string>): (r: seq<string>)
    ensures forall i :: 0 <= i < |r| ==> r[i] != "" && r[i] != "."
    ensures (forall j :: 0 <= j < |parts| ==> '/' !in parts[j]) ==> forall i :: 0 <= i < |r| ==> '/' !in r[i]
  {
    if parts == [] then []
    else (if parts[0] == "" || parts[0] == "." then [] else [parts[0]]) + KeepParts(parts[1..])
  }

  /** `Path(p).name`: the last component, or "" for the root and for `.`. */
  function PathName(p: string): (r: string)
    ensures r != "." && '/' !in r
  {
    var c := Components(p);
    if c == [] then "" else c[|c| - 1]
  }

  lemma {:induction false} KeepPartsSnoc(parts: seq<string>, name: string)
    requires name != "" && name != "."
    ensures KeepParts(parts + [name]) == KeepParts(parts) + [name]
  {
    if parts != [] {
      assert (parts + [name])[1..] == parts[1..] + [name];
      KeepPartsSnoc(parts[1..], name);
    }
  }

  lemma SplitPlain(name: string, sep: char)
    requires sep !in name
    ensures Split(name, sep) == [name]
  {
    SplitJoin([name], sep);
  }

  /** The name of a path is its last component, whatever directory holds it. */
  lemma PathNameOfChild(dir: string, name: string)
    requires name != "" && name != "." && '/' !in name
    ensures PathName(dir + "/" + name) == name
  {
    SplitConcat(dir, name, '/');
    SplitPlain(name, '/');
    KeepPartsSnoc(Split(dir, '/'), name);
  }

  /** A plain name is its own `Path(...).name`. */
  lemma PathNameOfName(name: string)
    requires name != "" && name != "." && '/' !in name
    ensures PathName(name) == name
  {
    SplitPlain(name, '/');
    assert KeepParts([name]) == [name] + KeepParts([]);
  }

  /** Position of the last `.` in a name, if any. */
  function LastDot(name: string): (r: int)
    ensures -1 <= r < |name|
    ensures r >= 0 ==> name[r] == '.' && '.' !in name[r + 1..]
    ensures r == -1 ==> '.' !in name
  {
    if name == [] then -1
    else if name[|name| - 1] == '.' then |name| - 1
    else
      var r := LastDot(name[..|name| - 1]);
      assert name == name[..|name| - 1] + [name[|name| - 1]];
      r
  }

  /** `PurePath.suffix`: from the last dot, unless the dot is the first or the last character. */
  function Suffix(name: string): string
  {
    var i := LastDot(name);
    if 0 < i < |name| - 1 then name[i..] else ""
  }

  /** `PurePath.stem`: the name without its suffix. */
  function Stem(name: string): (r: string)
    ensures r + Suffix(name) == name
  {
    var i := LastDot(name);
    if 0 < i < |name| - 1 then name[..i] else name
  }

  /** The last dot is the one with no dot after it. */
  lemma {:induction false} LastDotIs(name: string, k: nat)
    requires k < |name| && name[k] == '.' && '.' !in name[k + 1..]
    ensures LastDot(name) == k
  {
    if k < |name| - 1 {
      assert name[|name| - 1] in name[k + 1..];
      var q := name[..|name| - 1];
      assert name[k + 1..] == q[k + 1..] + [name[|name| - 1]];
      LastDotIs(q, k);
    }
  }

  /** A name with a real suffix loses exactly that suffix. */
  lemma StemOfSuffixed(base: string, ext: string)
    requires base != [] && '.' !in ext && ext != []
    ensures Suffix(base + "." + ext) == "." + ext && Stem(base + "." + ext) == base
  {
    var n := base + "." + ext;
    assert n[|base|] == '.';
    assert n[|base| + 1..] == ext;
    LastDotIs(n, |base|);
  }

  /**
   * `os.path.splitext(p)[0]`: drops the text from the last dot of the base name,
   * unless everything before that dot in the base name is dots.
   */
  function SplitExtRoot(p: string): string
  {
    var b := AfterLastSlash(p);
    var name := p[b..];
    var i := LastDot(name);
    if i > 0 && exists k :: 0 <= k < i && name[k] != '.' then p[..b + i] else p
  }

  /** For a `*.pdbqt` file name (which never starts with a dot) the root is the name minus `.pdbqt`. */
  lemma SplitExtPdbqt(name: string)
    requires '/' !in name && EndsWith(name, ".pdbqt") && |name| > 6 && name[0] != '.'
    ensures SplitExtRoot(name) == name[..|name| - 6]
  {
    assert name[0..] == name;
    AfterLastSlashIs(name, 0);
    assert name[|name| - 6] == '.';
    assert name[|name| - 5..] == "pdbqt";
    LastDotIs(name, |name| - 6);
  }
}
