/**
  * The part of Rust's `std::path` that the core relies on, over normalised
  * absolute paths. A path is the sequence of its components below `/`; the
  * empty sequence is `/` itself.
  */
module Paths {
  import opened Common

  /** A normal path component: non-empty, not `.` or `..`, without a separator. */
  type Name = s: string | s != "" && s != "." && s != ".." && '/' !in s witness "_"

  type Path = seq<Name>

  /** `Path::parent`: every path but `/` has one. */
  function Parent(p: Path): (r: Option<Path>)
    ensures r.None? <==> p == []
    ensures r.Some? ==> r.value + [p[|p| - 1]] == p
  {
    if p == [] then None else Some(p[..|p| - 1])
  }

  /** `Path::file_name`, with `""` for `/` (where Rust returns `None`). */
  function Base(p: Path): string
  {
    if p == [] then "" else p[|p| - 1]
  }

  /** True when `p` is `dir/<name>` for one component `name`. */
  predicate IsChildOf(dir: Path, p: Path)
  {
    |p| == |dir| + 1 && p[..|dir|] == dir
  }

  lemma ChildrenDifferByName(dir: Path, p: Path, q: Path)
    requires IsChildOf(dir, p) && IsChildOf(dir, q) && p != q
    ensures Base(p) != Base(q)
  {
    assert p == dir + [Base(p)];
    assert q == dir + [Base(q)];
  }

  // ---------------------------------------------------------------------------
  // Stem and extension of a file name (`Path::file_stem`, `Path::extension`)
  // ---------------------------------------------------------------------------

  /** Index of the last `.` in `s`, if any. */
  function LastDot(s: string): (r: Option<nat>)
    ensures r.Some? ==> r.value < |s| && s[r.value] == '.'
    ensures r.Some? ==> forall j :: r.value < j < |s| ==> s[j] != '.'
    ensures r.None? <==> '.' !in s
  {
    if s == [] then None
    else if s[|s| - 1] == '.' then Some(|s| - 1)
    else
      var r := LastDot(s[..|s| - 1]);
      assert s == s[..|s| - 1] + [s[|s| - 1]];
      r
  }

  /** Everything after the last dot, unless that dot opens the name (`.bashrc`). */
  function Extension(name: Name): Option<string>
  {
    match LastDot(name)
    case None => None
    case Some(k) => if k == 0 then None else Some(name[k + 1..])
  }

  /** Everything before the last dot, or the whole name when it has no extension. */
  function Stem(name: Name): (r: string)
    ensures r != [] && '/' !in r
  {
    match LastDot(name)
    case None => name
    case Some(k) => if k == 0 then name else name[..k]
  }

  /** The name is its stem, then `.` and its extension when it has one. */
  lemma {:induction false} StemAndExtension(name: Name)
    ensures Extension(name).None? ==> Stem(name) == name
    ensures Extension(name).Some? ==> name == Stem(name) + "." + Extension(name).value
    ensures Extension(name).Some? ==> '.' !in Extension(name).value
  {
    match LastDot(name)
    case None =>
    case Some(k) =>
      if k != 0 {
        assert name == name[..k] + "." + name[k + 1..];
        var ext := name[k + 1..];
        forall j | 0 <= j < |ext| ensures ext[j] != '.' {
          assert ext[j] == name[k + 1 + j];
        }
      }
  }

  /** The extension of `a + "." + b` is `b` when `b` holds no dot and `a` is not empty. */
  lemma ExtensionOfDotted(a: string, b: string, name: Name)
    requires name == a + "." + b && a != [] && '.' !in b
    ensures Extension(name) == Some(b)
  {
    var r := LastDot(name);
    assert name[|a|] == '.';
    assert r.Some? by { assert '.' in name; }
    forall j | |a| < j < |name| ensures name[j] != '.' {
      assert name[j] == b[j - |a| - 1];
    }
    assert name[|a| + 1..] == b;
  }

  /** Appending dot-free text keeps a name without extension without extension. */
  lemma ExtensionStaysNone(name: Name, suffix: string, name': Name)
    requires name' == name + suffix && '.' !in suffix && Extension(name).None?
    ensures Extension(name') == None
  {
    match LastDot(name)
    case None =>
      assert '.' !in name';
    case Some(k) =>
      assert k == 0;
      var r := LastDot(name');
      assert name'[0] == '.';
      assert r.Some?;
      forall j | |name| <= j < |name'| ensures name'[j] != '.' {
        assert name'[j] == suffix[j - |name|];
      }
  }

  // ---------------------------------------------------------------------------
  // Rendering a path as text (`Path::to_str`)
  // ---------------------------------------------------------------------------

  /** The components separated by `/`, as a relative path prints. */
  function Join(p: Path): (r: string)
    ensures p == [] <==> r == []
  {
    if p == [] then "" else if |p| == 1 then p[0] else p[0] + "/" + Join(p[1..])
  }

  /** The text of an absolute path: `/` followed by the joined components. */
  function PathString(p: Path): (r: string)
    ensures |r| >= 1 && r[0] == '/'
  {
    "/" + Join(p)
  }

  // ---------------------------------------------------------------------------
  // The order of `String::cmp`: lexicographic by character
  // ---------------------------------------------------------------------------

  predicate NameLess(a: string, b: string)
  {
    if a == [] then b != []
    else if b == [] then false
    else if a[0] != b[0] then a[0] < b[0]
    else NameLess(a[1..], b[1..])
  }

  lemma {:induction false} NameLessIrreflexive(a: string)
    ensures !NameLess(a, a)
  {
    if a != [] {
      NameLessIrreflexive(a[1..]);
    }
  }

  lemma {:induction false} NameLessTransitive(a: string, b: string, c: string)
    requires NameLess(a, b) && NameLess(b, c)
    ensures NameLess(a, c)
  {
    if a != [] && a[0] == b[0] && b[0] == c[0] {
      NameLessTransitive(a[1..], b[1..], c[1..]);
    }
  }

  lemma {:induction false} NameLessTotal(a: string, b: string)
    requires a != b
    ensures NameLess(a, b) || NameLess(b, a)
  {
    if a != [] && b != [] && a[0] == b[0] {
      assert a == [a[0]] + a[1..];
      assert b == [b[0]] + b[1..];
      NameLessTotal(a[1..], b[1..]);
    }
  }
}
