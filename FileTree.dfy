/**
 * The abstract filesystem the archive engine works on: a map from path to
 * entry kind, and the effect of the primitives it calls (`readdirSync`,
 * `existsSync`, `statSync`, `renameSync`, `removeSync`) stated as functions on
 * that map. `renameSync` follows rename(2): it fails on a missing source, on a
 * move into the source's own subtree, on a kind mismatch and on a non-empty
 * target directory, and otherwise replaces an existing target.
 */
module FileTree {
  import opened Paths

  datatype Kind = File | Dir

  /** Every entry of the filesystem, keyed by its full path. */
  type Tree = map<Path, Kind>

  /** The errors the primitives and the normalisers throw. */
  datatype Error =
    | NoSuchEntry(path: Path)        // ENOENT
    | NotADirectory(path: Path)      // ENOTDIR
    | IsADirectory(path: Path)       // EISDIR
    | DirectoryNotEmpty(path: Path)  // ENOTEMPTY
    | InvalidMove(path: Path)        // EINVAL: a directory moved into itself
    | NotRecognized(path: Path)      // no descriptor anywhere under the folder

  datatype Option<T> = None | Some(value: T)

  datatype Result<T> = Ok(value: T) | Err(error: Error)

  datatype Outcome = Pass | Fail(error: Error)

  predicate IsDir(t: Tree, p: Path) {
    p in t && t[p] == Dir
  }

  /** A tree: the root `[]` is a directory, every other entry sits in a
      directory and has a name other than ``, `.` and `..`. */
  predicate WellFormed(t: Tree) {
    && IsDir(t, [])
    && forall p {:trigger Dirname(p)} {:trigger Basename(p)} ::
         p in t && p != [] ==> IsDir(t, Dirname(p)) && IsEntryName(Basename(p))
  }

  /** The names `readdirSync(p)` lists. */
  function Children(t: Tree, p: Path): (c: set<Name>)
    ensures forall n :: n in c <==> p + [n] in t
  {
    var c := set q | q in t && |q| == |p| + 1 && p <= q :: q[|p|];
    assert forall n :: p + [n] in t ==> n in c by {
      forall n | p + [n] in t
        ensures n in c
      {
        var q := p + [n];
        assert |q| == |p| + 1 && p <= q && q[|p|] == n;
      }
    }
    assert forall n :: n in c ==> p + [n] in t by {
      forall n | n in c
        ensures p + [n] in t
      {
        var q :| q in t && |q| == |p| + 1 && p <= q && q[|p|] == n;
        assert q == p + [n];
      }
    }
    c
  }

  /** A directory that holds nothing. */
  predicate IsEmptyDir(t: Tree, p: Path) {
    IsDir(t, p) && Children(t, p) == {}
  }

  /** `names` lists the set `s`: each member once, nothing else. */
  ghost predicate IsListing(names: seq<Name>, s: set<Name>) {
    && Distinct(names)
    && forall n :: n in names <==> n in s
  }

  /** A listed child's name is an entry name, so joining it to the folder
      gives the child's path. */
  lemma ListedName(t: Tree, p: Path, n: Name)
    requires WellFormed(t) && n in Children(t, p)
    ensures IsEntryName(n) && Join(p, n) == p + [n]
  {
    assert Basename(p + [n]) == n;
  }

  /** Every proper ancestor of an entry is a directory. */
  lemma AncestorIsDir(t: Tree, p: Path, q: Path)
    requires WellFormed(t) && q in t && p < q
    ensures IsDir(t, p)
    decreases |q|
  {
    var d := Dirname(q);
    if d != p {
      assert p < d;
      AncestorIsDir(t, p, d);
    }
  }

  /** An ancestor of an entry lists the next name on the way down. */
  lemma AncestorHoldsChild(t: Tree, p: Path, q: Path)
    requires WellFormed(t) && q in t && p < q
    ensures Children(t, p) != {}
  {
    var c := q[..|p| + 1];
    assert c == p + [q[|p|]];
    if c != q {
      AncestorIsDir(t, c, q);
    }
    assert q[|p|] in Children(t, p);
  }

  /** Nothing differs between `t` and `u` except strictly under `root`. */
  ghost predicate SameOutside(t: Tree, u: Tree, root: Path) {
    forall q :: !(root < q) ==> (q in t <==> q in u) && (q in t ==> t[q] == u[q])
  }

  /** `removeSync(p)`: the entry and everything below it disappear. */
  function RemoveTree(t: Tree, p: Path): Tree {
    map q | q in t && !(p <= q) :: t[q]
  }

  /** The path `q`, at or under `from`, carried over to the same place under `to`. */
  function Rebase(q: Path, from: Path, to: Path): (r: Path)
    requires from <= q
    ensures |r| == |to| + |q| - |from| && to <= r
  {
    to + q[|from|..]
  }

  /** The paths the subtree at `src` occupies once it is moved to `dst`. */
  function Relocated(t: Tree, src: Path, dst: Path): (s: set<Path>)
    ensures forall q :: q in s <==> dst <= q && Rebase(q, dst, src) in t
  {
    var s := set r | r in t && src <= r :: Rebase(r, src, dst);
    assert forall q :: dst <= q && Rebase(q, dst, src) in t ==> q in s by {
      forall q | dst <= q && Rebase(q, dst, src) in t
        ensures q in s
      {
        var r := Rebase(q, dst, src);
        assert src <= r && Rebase(r, src, dst) == q;
      }
    }
    assert forall q :: q in s ==> dst <= q && Rebase(q, dst, src) in t by {
      forall q | q in s
        ensures dst <= q && Rebase(q, dst, src) in t
      {
        var r :| r in t && src <= r && q == Rebase(r, src, dst);
        assert q[|dst|..] == r[|src|..];
        assert Rebase(q, dst, src) == r;
      }
    }
    s
  }

  /** The subtree at `src` moved to `dst`, replacing whatever was at `dst`. */
  function MoveTree(t: Tree, src: Path, dst: Path): (m: Tree)
    ensures forall q :: q in m <==>
      (q in t && !(src <= q) && !(dst <= q)) || (dst <= q && Rebase(q, dst, src) in t)
    ensures forall q :: dst <= q && Rebase(q, dst, src) in t ==> m[q] == t[Rebase(q, dst, src)]
    ensures forall q :: q in t && !(src <= q) && !(dst <= q) ==> m[q] == t[q]
  {
    (map q | q in t && !(src <= q) && !(dst <= q) :: t[q])
    + (map q | q in Relocated(t, src, dst) :: t[Rebase(q, dst, src)])
  }

  /** `renameSync(src, dst)`, as rename(2) defines it. */
  function RenameSpec(t: Tree, src: Path, dst: Path): (r: Result<Tree>)
    ensures src !in t ==> r == Err(NoSuchEntry(src))
    ensures src in t && src < dst ==> r == Err(InvalidMove(dst))
    ensures r.Ok? ==> dst in r.value && r.value[dst] == t[src]
    ensures r.Ok? && !(dst <= src) ==> src !in r.value
    ensures r.Ok? && src != dst && dst in t ==> t[dst] == t[src] && (t[dst] == Dir ==> IsEmptyDir(t, dst))
    ensures r.Ok? && dst !in t ==> dst != [] && IsDir(t, Dirname(dst))
  {
    if src !in t then Err(NoSuchEntry(src))
    else
    MovedSourceAtTarget(t, src, dst);
    if src == dst then Ok(t)
    else if src <= dst then Err(InvalidMove(dst))
    else if dst in t then
      if t[src] != t[dst] then
        // a file onto a directory, or a directory onto a file
        Err(if t[dst] == Dir then IsADirectory(dst) else NotADirectory(dst))
      else if t[dst] == Dir && !IsEmptyDir(t, dst) then Err(DirectoryNotEmpty(dst))
      else Ok(MoveTree(t, src, dst))
    else if dst == [] || !IsEntryName(Basename(dst)) then Err(NoSuchEntry(dst))
    else if !IsDir(t, Dirname(dst)) then
      Err(if Dirname(dst) in t then NotADirectory(Dirname(dst)) else NoSuchEntry(Dirname(dst)))
    else Ok(MoveTree(t, src, dst))
  }

  /** A moved subtree's root lands on the target, and the source is gone
      unless the target is above it. */
  lemma MovedSourceAtTarget(t: Tree, src: Path, dst: Path)
    requires src in t
    ensures dst in MoveTree(t, src, dst) && MoveTree(t, src, dst)[dst] == t[src]
    ensures !(dst <= src) ==> src !in MoveTree(t, src, dst)
  {
    assert Rebase(dst, dst, src) == src + dst[|dst|..] == src;
  }

  /** A rename that succeeds without being a no-op moves a subtree to a
      place neither inside nor above it, in an existing directory. */
  lemma RenameIsMove(t: Tree, src: Path, dst: Path)
    requires WellFormed(t) && RenameSpec(t, src, dst).Ok? && src != dst
    ensures RenameSpec(t, src, dst).value == MoveTree(t, src, dst)
    ensures src in t && !(src <= dst) && !(dst <= src)
    ensures dst != [] && IsEntryName(Basename(dst)) && IsDir(t, Dirname(dst))
  {
    assert src in t;
    if dst <= src {
      RenameOntoAncestorFails(t, src, dst);
      assert false;
    }
    if dst in t {
      assert dst != [] && IsDir(t, Dirname(dst)) && IsEntryName(Basename(dst));
    }
  }

  /** The target would be a non-empty ancestor directory of the source. */
  lemma RenameOntoAncestorFails(t: Tree, src: Path, dst: Path)
    requires WellFormed(t) && src in t && dst < src
    ensures RenameSpec(t, src, dst).Err?
  {
    AncestorIsDir(t, dst, src);
    AncestorHoldsChild(t, dst, src);
  }

  /** Moving a subtree to an incomparable place in an existing directory
      leaves a tree. */
  lemma MoveTreeWellFormed(t: Tree, src: Path, dst: Path)
    requires WellFormed(t) && !(src <= dst) && !(dst <= src)
    requires dst != [] && IsEntryName(Basename(dst)) && IsDir(t, Dirname(dst))
    ensures WellFormed(MoveTree(t, src, dst))
  {
    var m := MoveTree(t, src, dst);
    forall q | q in m && q != []
      ensures IsDir(m, Dirname(q)) && IsEntryName(Basename(q))
    {
      if q in t && !(src <= q) && !(dst <= q) {
        var d := Dirname(q);
        assert !(src <= d) && !(dst <= d);
      } else if q == dst {
        var d := Dirname(dst);
        assert !(src <= d) && !(dst <= d);
      } else {
        MovedEntryWellPlaced(t, src, dst, q);
      }
    }
    assert [] in t && !(src <= []) && !(dst <= []);
  }

  lemma MovedEntryWellPlaced(t: Tree, src: Path, dst: Path, q: Path)
    requires WellFormed(t) && dst < q && Rebase(q, dst, src) in t
    ensures var m := MoveTree(t, src, dst); IsDir(m, Dirname(q)) && IsEntryName(Basename(q))
  {
    var r := Rebase(q, dst, src);
    var d := Dirname(q);
    assert r != [] && Dirname(r) == Rebase(d, dst, src);
    assert dst <= d;
    assert Basename(q) == Basename(r);
  }

  /** A successful rename leaves a tree, and touches nothing outside the
      source and target subtrees. */
  lemma RenameWellFormed(t: Tree, src: Path, dst: Path)
    requires WellFormed(t) && RenameSpec(t, src, dst).Ok?
    ensures WellFormed(RenameSpec(t, src, dst).value)
    ensures forall q :: !(src <= q) && !(dst <= q) ==>
      (q in RenameSpec(t, src, dst).value <==> q in t)
    ensures forall q :: !(src <= q) && !(dst <= q) && q in t ==>
      RenameSpec(t, src, dst).value[q] == t[q]
  {
    if src != dst {
      RenameIsMove(t, src, dst);
      MoveTreeWellFormed(t, src, dst);
    }
  }

  /** Removing a non-root entry leaves a tree. */
  lemma RemoveWellFormed(t: Tree, p: Path)
    requires WellFormed(t) && p != []
    ensures WellFormed(RemoveTree(t, p))
  {
    var r := RemoveTree(t, p);
    forall q | q in r && q != []
      ensures IsDir(r, Dirname(q))
    {
      assert !(p <= Dirname(q));
    }
  }
}
