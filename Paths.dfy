/**
 * Paths of the extracted archive tree, as sequences of name segments, and the
 * fixed names of the archive convention (the module descriptor, the unit-test
 * suffix and the escape prefix).
 *
 * `path.join`, `path.dirname` and `path.basename` become operations on segment
 * sequences; two paths "resolve" to the same place exactly when they are equal.
 */
module Paths {

  type Name = string
  type Path = seq<Name>

  /** The module descriptor whose presence marks a platform-module folder. */
  const PlatformModuleXml: Name := "PlatformModule.xml"
  /** Any entry whose name ends with this suffix marks a unit-test folder. */
  const SpecSuffix: string := ".spec.js"
  /** The escape character stripped from folder names on unpack. */
  const EscapeChar: char := '$'

  /** `path.dirname`: the parent path; the root is its own parent. */
  function Dirname(p: Path): (d: Path)
    ensures p != [] ==> |d| == |p| - 1 && d <= p
    ensures p == [] ==> d == []
  {
    if p == [] then [] else p[..|p| - 1]
  }

  /** `path.basename` of a non-root path: its last segment. */
  function Basename(p: Path): Name
    requires p != []
  {
    p[|p| - 1]
  }

  /** A name a directory can hold: not empty and not one of the two
      special names `.` and `..`. */
  predicate IsEntryName(n: Name) {
    n != "" && n != "." && n != ".."
  }

  /** `path.join(dir, name)`, normalised: an empty name and `.` add no
      segment, `..` goes up one level, any other name is one more segment. */
  function Join(dir: Path, name: Name): (p: Path)
    ensures name == "" || name == "." ==> p == dir
    ensures name == ".." ==> p == Dirname(dir)
    ensures IsEntryName(name) ==> p != [] && Dirname(p) == dir && Basename(p) == name
  {
    if name == "" || name == "." then dir
    else if name == ".." then Dirname(dir)
    else dir + [name]
  }

  /** `s.endsWith(suffix)` */
  predicate EndsWith(s: string, suffix: string) {
    |suffix| <= |s| && s[|s| - |suffix|..] == suffix
  }

  /** `name.startsWith('$')` */
  predicate IsEscaped(n: Name) {
    |n| > 0 && n[0] == EscapeChar
  }

  /** `name.slice(1)` on an escaped name: the name without its first character. */
  function StripEscape(n: Name): (m: Name)
    requires IsEscaped(n)
    ensures [EscapeChar] + m == n
  {
    n[1..]
  }

  /** No element occurs twice. */
  predicate Distinct<T(==)>(s: seq<T>) {
    forall i, j :: 0 <= i < j < |s| ==> s[i] != s[j]
  }

  /** Putting a new element in front keeps a sequence free of repeats. */
  lemma DistinctCons<T>(x: T, s: seq<T>)
    requires Distinct(s) && x !in s
    ensures Distinct([x] + s)
  {
    forall i, j | 0 <= i < j < |[x] + s|
      ensures ([x] + s)[i] != ([x] + s)[j]
    {
      assert ([x] + s)[j] == s[j - 1];
      if i > 0 {
        assert ([x] + s)[i] == s[i - 1];
      }
    }
  }

  /** Two sequences without repeats and without common elements join into
      one without repeats. */
  lemma DistinctConcat<T>(a: seq<T>, b: seq<T>)
    requires Distinct(a) && Distinct(b) && forall x :: x in a ==> x !in b
    ensures Distinct(a + b)
  {
    forall i, j | 0 <= i < j < |a + b|
      ensures (a + b)[i] != (a + b)[j]
    {
      if j < |a| {
        assert (a + b)[i] == a[i] && (a + b)[j] == a[j];
      } else if i >= |a| {
        assert (a + b)[i] == b[i - |a|] && (a + b)[j] == b[j - |a|];
      } else {
        assert (a + b)[i] == a[i] && (a + b)[j] == b[j - |a|];
        assert a[i] in a;
      }
    }
  }

  /** A non-empty sequence is its front followed by its last element. */
  lemma SplitLast<T>(s: seq<T>)
    requires s != []
    ensures s == s[..|s| - 1] + [s[|s| - 1]]
  {
  }
}
