/**
 * The two normalisers of `src/zip/zipAnalyzer.js`,
 * `getCustomerAndNormalizePlatformModule` and `getCustomerAndNormalizeUnitTest`,
 * with their helpers `moveFolderContents` and `deleteAllFilesAndFolders`.
 *
 * A normaliser finds an anchor under the archive root, snapshots the root's
 * listing, moves every child of the anchor's folder up into the root, guesses
 * a customer name from the folder above the anchor's folder, and finally
 * removes every snapshotted child of the root. The specification functions
 * below describe each phase on the tree; the lemmas show that, when no child of
 * the anchor folder shares a name with a child of the root, the whole run
 * leaves the root holding exactly the anchor folder's former subtree.
 */
module Promotion {
  import opened Paths
  import opened FileTree
  import opened FileSystems
  import opened Anchors

  /** `moveFolderContents` on the tree: rename each listed child of `src` to
      the same name in `dst`, in listing order, stopping at the first rename
      that fails. */
  function MoveEach(t: Tree, src: Path, dst: Path, names: seq<Name>): (Outcome, Tree)
    decreases |names|
  {
    if names == [] then (Pass, t)
    else
      var res := RenameSpec(t, Join(src, names[0]), Join(dst, names[0]));
      if res.Err? then (Fail(res.error), t)
      else MoveEach(res.value, src, dst, names[1..])
  }

  /** `deleteAllFilesAndFolders` on the tree: remove each named child of `dir`. */
  function RemoveEach(t: Tree, dir: Path, names: seq<Name>): Tree
    decreases |names|
  {
    if names == [] then t
    else RemoveEach(RemoveTree(t, Join(dir, names[0])), dir, names[1..])
  }

  /** `q` lies at or under a child of `base` named in `names`. */
  predicate Under(base: Path, names: seq<Name>, q: Path) {
    base < q && q[|base|] in names
  }

  /** The tree with every named child of `dir` gone, with its subtree. */
  function RemoveAll(t: Tree, dir: Path, names: seq<Name>): Tree {
    map q | q in t && !Under(dir, names, q) :: t[q]
  }

  /** The tree once the children of `folder` named in `done` have been moved,
      with their subtrees, to the same names in `root`. */
  function Hoisted(t: Tree, folder: Path, root: Path, done: seq<Name>): Tree {
    (map q | q in t && !Under(folder, done, q) :: t[q])
    + (map q | q in Relocated(t, folder, root) && Under(root, done, q) :: t[Rebase(q, root, folder)])
  }

  /** The end state of a normalisation that moved `folder` up into `root`:
      nothing outside the root changes, and under the root lies exactly what
      lay under `folder`. */
  function Promoted(t: Tree, root: Path, folder: Path): (p: Tree)
    ensures forall q :: !(root < q) ==> (q in p <==> q in t)
    ensures forall q :: !(root < q) && q in t ==> p[q] == t[q]
    ensures forall q :: root < q ==> (q in p <==> Rebase(q, root, folder) in t)
    ensures forall q :: root < q && Rebase(q, root, folder) in t ==> p[q] == t[Rebase(q, root, folder)]
  {
    (map q | q in t && !(root < q) :: t[q])
    + (map q | q in Relocated(t, folder, root) && q != root :: t[Rebase(q, root, folder)])
  }

  /** No child of the anchor folder has the name of a child of the root. */
  predicate NoCollision(t: Tree, root: Path, folder: Path) {
    Children(t, folder) !! Children(t, root)
  }

  /** The customer guess: the name of the folder above the anchor folder,
      when that folder lies strictly inside the root. */
  function CustomerOf(root: Path, folder: Path): (c: Option<Name>)
    ensures root <= folder ==> (c.Some? <==> |folder| >= |root| + 2)
    ensures c.Some? ==> |folder| >= 2 && c.value == folder[|folder| - 2]
  {
    var parent := Dirname(folder);
    if parent != root && root <= parent then Some(Basename(parent)) else None
  }

  /** Every prefix of an entry is an entry. */
  lemma PrefixInTree(t: Tree, p: Path, q: Path)
    requires WellFormed(t) && q in t && p <= q
    ensures p in t
  {
    if p != q {
      AncestorIsDir(t, p, q);
    }
  }

  lemma HoistedNone(t: Tree, folder: Path, root: Path)
    ensures Hoisted(t, folder, root, []) == t
  {
    var h := Hoisted(t, folder, root, []);
    assert forall q :: q in h <==> q in t;
  }

  /** Moving one more child of the anchor folder up succeeds and extends the
      hoisted tree by that child. */
  lemma HoistStep(t: Tree, folder: Path, root: Path, done: seq<Name>, n: Name)
    requires WellFormed(t) && root < folder && IsDir(t, folder) && NoCollision(t, root, folder)
    requires forall m :: m in done ==> m in Children(t, folder)
    requires n in Children(t, folder) && n !in done
    ensures RenameSpec(Hoisted(t, folder, root, done), Join(folder, n), Join(root, n))
         == Ok(Hoisted(t, folder, root, done + [n]))
  {
    var c := folder[|root|];
    AncestorIsDir(t, root, folder);
    PrefixInTree(t, root + [c], folder);
    assert folder[..|root| + 1] == root + [c];
    assert c in Children(t, root);
    assert n !in Children(t, root);
    assert Basename(folder + [n]) == n;
    assert Join(folder, n) == folder + [n] && Join(root, n) == root + [n];
    HoistRename(t, folder, root, done, n);
    HoistMove(t, folder, root, done, n);
  }

  /** The rename of the next child succeeds: its source is still in place and
      its target is free. */
  lemma HoistRename(t: Tree, folder: Path, root: Path, done: seq<Name>, n: Name)
    requires root < folder && IsDir(t, root) && folder + [n] in t && root + [n] !in t && IsEntryName(n)
    requires folder[|root|] !in done && n !in done
    ensures var h := Hoisted(t, folder, root, done);
      RenameSpec(h, folder + [n], root + [n]) == Ok(MoveTree(h, folder + [n], root + [n]))
  {
    var h := Hoisted(t, folder, root, done);
    var s := folder + [n];
    var d := root + [n];
    ChildPrefix(folder, n, s);
    assert s in h;
    ChildPrefix(root, n, d);
    assert d !in h;
    assert Dirname(d) == root && IsDir(h, root);
  }

  /** The moved child lands where the hoisted tree expects it. */
  lemma HoistMove(t: Tree, folder: Path, root: Path, done: seq<Name>, n: Name)
    requires WellFormed(t) && root < folder && root + [n] !in t
    requires folder[|root|] !in done && n !in done && folder[|root|] != n
    ensures MoveTree(Hoisted(t, folder, root, done), folder + [n], root + [n])
         == Hoisted(t, folder, root, done + [n])
  {
    var m := MoveTree(Hoisted(t, folder, root, done), folder + [n], root + [n]);
    var h' := Hoisted(t, folder, root, done + [n]);
    HoistPointwise(t, folder, root, done, n);
    assert m == h';
  }

  /** `HoistMove` path by path. */
  lemma HoistPointwise(t: Tree, folder: Path, root: Path, done: seq<Name>, n: Name)
    requires WellFormed(t) && root < folder && root + [n] !in t
    requires folder[|root|] !in done && n !in done && folder[|root|] != n
    ensures var m := MoveTree(Hoisted(t, folder, root, done), folder + [n], root + [n]);
      var h' := Hoisted(t, folder, root, done + [n]);
      forall q :: (q in m <==> q in h') && (q in m ==> m[q] == h'[q])
  {
    var m := MoveTree(Hoisted(t, folder, root, done), folder + [n], root + [n]);
    var h' := Hoisted(t, folder, root, done + [n]);
    forall q
      ensures (q in m <==> q in h') && (q in m ==> m[q] == h'[q])
    {
      if root + [n] <= q {
        HoistStepMoved(t, folder, root, done, n, q);
      } else {
        HoistStepKept(t, folder, root, done, n, q);
      }
    }
  }

  /** `q` lies at or under the child `n` of `base` exactly when it lies
      under a child of `base` named in `[n]`. */
  lemma ChildPrefix(base: Path, n: Name, q: Path)
    ensures base + [n] <= q <==> Under(base, [n], q)
  {
    if Under(base, [n], q) {
      assert q[..|base| + 1] == base + [n];
    }
  }

  /** `HoistStep` at a single path `q` under the moved child's new place. */
  lemma HoistStepMoved(t: Tree, folder: Path, root: Path, done: seq<Name>, n: Name, q: Path)
    requires WellFormed(t) && root < folder && root + [n] !in t
    requires folder[|root|] !in done && n !in done && folder[|root|] != n
    requires root + [n] <= q
    ensures q in MoveTree(Hoisted(t, folder, root, done), folder + [n], root + [n])
        <==> q in Hoisted(t, folder, root, done + [n])
    ensures q in MoveTree(Hoisted(t, folder, root, done), folder + [n], root + [n]) ==>
      MoveTree(Hoisted(t, folder, root, done), folder + [n], root + [n])[q]
        == Hoisted(t, folder, root, done + [n])[q]
  {
    var s := folder + [n];
    var d := root + [n];
    var c := folder[|root|];
    ChildPrefix(root, n, q);
    assert !(s <= q);
    assert q[|root|..] == [n] + q[|d|..];
    var o := Rebase(q, root, folder);
    assert Rebase(q, d, s) == o;
    assert o[|folder|] == n && o[|root|] == c;
    ChildPrefix(folder, n, o);
    if q in t {
      PrefixInTree(t, d, q);
    }
  }

  /** `HoistStep` at a single path `q` elsewhere. */
  lemma HoistStepKept(t: Tree, folder: Path, root: Path, done: seq<Name>, n: Name, q: Path)
    requires root < folder
    requires folder[|root|] !in done && n !in done && folder[|root|] != n
    requires !(root + [n] <= q)
    ensures q in MoveTree(Hoisted(t, folder, root, done), folder + [n], root + [n])
        <==> q in Hoisted(t, folder, root, done + [n])
    ensures q in MoveTree(Hoisted(t, folder, root, done), folder + [n], root + [n]) ==>
      MoveTree(Hoisted(t, folder, root, done), folder + [n], root + [n])[q]
        == Hoisted(t, folder, root, done + [n])[q]
  {
    ChildPrefix(folder, n, q);
    ChildPrefix(root, n, q);
    if folder + [n] <= q {
      assert q[|root|] == folder[|root|];
    }
  }

  /** Moving the remaining children one after another succeeds and hoists
      them all. */
  lemma {:induction false} MoveEachHoists(t: Tree, folder: Path, root: Path, done: seq<Name>, rest: seq<Name>)
    requires WellFormed(t) && root < folder && IsDir(t, folder) && NoCollision(t, root, folder)
    requires Distinct(done + rest)
    requires forall m :: m in done + rest ==> m in Children(t, folder)
    ensures MoveEach(Hoisted(t, folder, root, done), folder, root, rest)
         == (Pass, Hoisted(t, folder, root, done + rest))
    decreases |rest|
  {
    if rest == [] {
      assert done + rest == done;
    } else {
      var n := rest[0];
      DistinctSplit(done, rest);
      HoistStep(t, folder, root, done, n);
      ShiftHead(done, rest);
      MoveEachHoists(t, folder, root, done + [n], rest[1..]);
    }
  }

  /** Moving the head of `rest` over to `done` keeps the concatenation. */
  lemma ShiftHead<T>(done: seq<T>, rest: seq<T>)
    requires rest != []
    ensures done + rest == (done + [rest[0]]) + rest[1..]
  {
  }

  /** The head of the names still to move is not among those already moved. */
  lemma DistinctSplit(done: seq<Name>, rest: seq<Name>)
    requires Distinct(done + rest) && rest != []
    ensures rest[0] !in done
  {
    assert (done + rest)[|done|] == rest[0];
    forall i | 0 <= i < |done|
      ensures done[i] != rest[0]
    {
      assert (done + rest)[i] == done[i];
    }
  }

  /** Removing the remaining named children one after another removes them
      all. */
  lemma {:induction false} RemoveEachRemovesAll(t: Tree, dir: Path, done: seq<Name>, rest: seq<Name>)
    requires forall n :: n in rest ==> IsEntryName(n)
    ensures RemoveEach(RemoveAll(t, dir, done), dir, rest) == RemoveAll(t, dir, done + rest)
    decreases |rest|
  {
    if rest == [] {
      assert done + rest == done;
    } else {
      var n := rest[0];
      var c := dir + [n];
      assert n in rest && forall m :: m in rest[1..] ==> m in rest;
      assert Join(dir, n) == c;
      var a := RemoveTree(RemoveAll(t, dir, done), c);
      var b := RemoveAll(t, dir, done + [n]);
      forall q
        ensures q in a <==> q in b
      {
        if c <= q {
          assert q[|dir|] == n;
        }
        if dir < q && q[|dir|] == n {
          assert q[..|c|] == c;
        }
      }
      assert a == b;
      ShiftHead(done, rest);
      RemoveEachRemovesAll(t, dir, done + [n], rest[1..]);
    }
  }

  lemma RemoveAllNone(t: Tree, dir: Path)
    ensures RemoveAll(t, dir, []) == t
  {
  }

  /** Clearing the root's original children from the hoisted tree leaves the
      promoted tree. */
  lemma ClearedHoistIsPromoted(t: Tree, folder: Path, root: Path, listing: seq<Name>, snapshot: seq<Name>)
    requires WellFormed(t) && root < folder && IsDir(t, folder) && NoCollision(t, root, folder)
    requires forall n :: n in listing <==> n in Children(t, folder)
    requires forall n :: n in snapshot <==> n in Children(t, root)
    ensures RemoveAll(Hoisted(t, folder, root, listing), root, snapshot) == Promoted(t, root, folder)
  {
    var a := RemoveAll(Hoisted(t, folder, root, listing), root, snapshot);
    var p := Promoted(t, root, folder);
    forall q
      ensures (q in a <==> q in p) && (q in a ==> a[q] == p[q])
    {
      if root < q {
        ClearedInside(t, folder, root, listing, snapshot, q);
      } else {
        ClearedOutside(t, folder, root, listing, snapshot, q);
      }
    }
    assert a == p;
  }

  /** `ClearedHoistIsPromoted` at a path outside the root's strict subtree. */
  lemma ClearedOutside(t: Tree, folder: Path, root: Path, listing: seq<Name>, snapshot: seq<Name>, q: Path)
    requires root < folder && !(root < q)
    ensures q in RemoveAll(Hoisted(t, folder, root, listing), root, snapshot)
        <==> q in Promoted(t, root, folder)
    ensures q in RemoveAll(Hoisted(t, folder, root, listing), root, snapshot) ==>
      RemoveAll(Hoisted(t, folder, root, listing), root, snapshot)[q] == Promoted(t, root, folder)[q]
  {
    assert !Under(root, snapshot, q) && !Under(root, listing, q);
  }

  /** `ClearedHoistIsPromoted` at a path strictly inside the root. */
  lemma ClearedInside(t: Tree, folder: Path, root: Path, listing: seq<Name>, snapshot: seq<Name>, q: Path)
    requires WellFormed(t) && root < folder && NoCollision(t, root, folder)
    requires forall n :: n in listing <==> n in Children(t, folder)
    requires forall n :: n in snapshot <==> n in Children(t, root)
    requires root < q
    ensures q in RemoveAll(Hoisted(t, folder, root, listing), root, snapshot)
        <==> q in Promoted(t, root, folder)
    ensures q in RemoveAll(Hoisted(t, folder, root, listing), root, snapshot) ==>
      RemoveAll(Hoisted(t, folder, root, listing), root, snapshot)[q] == Promoted(t, root, folder)[q]
  {
    var m := q[|root|];
    ChildPrefix(root, m, q);
    var o := Rebase(q, root, folder);
    assert o[|folder|] == m;
    ChildPrefix(folder, m, o);
    if q in t {
      PrefixInTree(t, root + [m], q);
    }
    if o in t {
      PrefixInTree(t, folder + [m], o);
    }
    if folder < q {
      ChildPrefix(folder, q[|folder|], q);
      assert q[|root|] == folder[|root|];
      if q in t {
        PrefixInTree(t, folder + [q[|folder|]], q);
      }
    }
  }

  /** The whole promotion, without collisions: every move succeeds, and
      after the snapshot is removed the root holds exactly the anchor
      folder's former subtree. */
  lemma PromoteWithoutCollision(t: Tree, folder: Path, root: Path, listing: seq<Name>, snapshot: seq<Name>)
    requires WellFormed(t) && root < folder && IsDir(t, folder) && NoCollision(t, root, folder)
    requires IsListing(listing, Children(t, folder))
    requires IsListing(snapshot, Children(t, root))
    ensures MoveEach(t, folder, root, listing) == (Pass, Hoisted(t, folder, root, listing))
    ensures RemoveEach(Hoisted(t, folder, root, listing), root, snapshot) == Promoted(t, root, folder)
  {
    HoistedNone(t, folder, root);
    assert [] + listing == listing;
    MoveEachHoists(t, folder, root, [], listing);
    var h := Hoisted(t, folder, root, listing);
    forall n | n in snapshot
      ensures IsEntryName(n)
    {
      assert Basename(root + [n]) == n;
    }
    RemoveAllNone(h, root);
    assert [] + snapshot == snapshot;
    RemoveEachRemovesAll(h, root, [], snapshot);
    ClearedHoistIsPromoted(t, folder, root, listing, snapshot);
  }

  /** Whatever the renames do, they keep a tree and touch nothing outside the
      root's strict subtree. */
  lemma {:induction false} MoveEachFrame(t: Tree, folder: Path, root: Path, names: seq<Name>)
    requires WellFormed(t) && root < folder
    requires forall n :: n in names ==> IsEntryName(n)
    ensures WellFormed(MoveEach(t, folder, root, names).1)
    ensures SameOutside(t, MoveEach(t, folder, root, names).1, root)
    decreases |names|
  {
    if names != [] {
      var n := names[0];
      assert n in names && forall m :: m in names[1..] ==> m in names;
      var src := Join(folder, n);
      var dst := Join(root, n);
      assert src == folder + [n] && dst == root + [n];
      var res := RenameSpec(t, src, dst);
      if res.Ok? {
        RenameWellFormed(t, src, dst);
        forall q | q in t || q in res.value
          ensures !(root < q) ==> (q in t <==> q in res.value) && (q in t ==> t[q] == res.value[q])
        {
          if src <= q {
            assert q[..|root|] == root;
          }
          if dst <= q {
            assert q[..|root|] == root;
          }
        }
        MoveEachFrame(res.value, folder, root, names[1..]);
      }
    }
  }

  /** Removing named children touches nothing outside the directory's strict
      subtree. */
  lemma {:induction false} RemoveEachFrame(t: Tree, dir: Path, names: seq<Name>)
    requires forall n :: n in names ==> IsEntryName(n)
    ensures SameOutside(t, RemoveEach(t, dir, names), dir)
    decreases |names|
  {
    if names != [] {
      var n := names[0];
      assert n in names && forall m :: m in names[1..] ==> m in names;
      assert Join(dir, n) == dir + [n];
      var u := RemoveTree(t, Join(dir, n));
      forall q | q in t
        ensures !(dir < q) ==> q in u
      {
        if dir + [n] <= q {
          assert q[..|dir|] == dir;
        }
      }
      RemoveEachFrame(u, dir, names[1..]);
    }
  }

  /** `moveFolderContents(source, destination)` */
  method MoveFolderContents(fs: FileSystem, src: Path, dst: Path) returns (r: Outcome, names: seq<Name>)
    requires fs.Valid()
    modifies fs
    ensures fs.Valid()
    ensures !IsDir(old(fs.entries), src) ==> r.Fail? && fs.entries == old(fs.entries)
    ensures IsDir(old(fs.entries), src) ==>
      IsListing(names, Children(old(fs.entries), src))
      && (r, fs.entries) == MoveEach(old(fs.entries), src, dst, names)
  {
    names := [];
    var listing := fs.Readdir(src);
    if listing.Err? {
      return Fail(listing.error), names;
    }
    names := listing.value;
    ghost var t := fs.entries;
    for i := 0 to |names|
      invariant fs.Valid()
      invariant MoveEach(t, src, dst, names) == MoveEach(fs.entries, src, dst, names[i..])
    {
      assert names[i..][1..] == names[i + 1..];
      var moved := fs.Rename(Join(src, names[i]), Join(dst, names[i]));
      if moved.Fail? {
        return moved, names;
      }
    }
    r := Pass;
  }

  /** `deleteAllFilesAndFolders(folderPath, children)`: removal of a missing
      entry is not an error, so every name is removed in turn. */
  method DeleteAllFilesAndFolders(fs: FileSystem, dir: Path, children: seq<Name>)
    requires fs.Valid()
    requires forall n :: n in children ==> IsEntryName(n)
    modifies fs
    ensures fs.Valid()
    ensures fs.entries == RemoveEach(old(fs.entries), dir, children)
  {
    ghost var t := fs.entries;
    for i := 0 to |children|
      invariant fs.Valid()
      invariant RemoveEach(t, dir, children) == RemoveEach(fs.entries, dir, children[i..])
    {
      assert children[i..][1..] == children[i + 1..];
      assert children[i] in children;
      fs.Remove(Join(dir, children[i]));
    }
  }

  /** The shared body of both normalisers: find the anchor (throwing when the
      root cannot be listed, or with `NotRecognized` when there is none), move
      the anchor folder's children up unless it is the root itself, guess the
      customer, and remove the root's original children. */
  method NormalizeAnchored(fs: FileSystem, root: Path, kind: AnchorKind) returns (r: Result<Option<Name>>, ghost anchor: Path, ghost snapshot: seq<Name>, ghost listing: seq<Name>)
    requires fs.Valid()
    modifies fs
    ensures fs.Valid()
    ensures SameOutside(old(fs.entries), fs.entries, root)
    ensures !IsDir(old(fs.entries), root) ==> r.Err? && fs.entries == old(fs.entries)
    ensures IsDir(old(fs.entries), root) && NoAnchorBelow(old(fs.entries), kind, root) ==>
      r == Err(NotRecognized(root)) && fs.entries == old(fs.entries)
    ensures IsDir(old(fs.entries), root) && !NoAnchorBelow(old(fs.entries), kind, root) ==>
      IsFoundAnchor(old(fs.entries), kind, root, anchor)
    ensures r.Ok? ==>
      IsFoundAnchor(old(fs.entries), kind, root, anchor) && r.value == CustomerOf(root, Dirname(anchor))
    ensures IsFoundAnchor(old(fs.entries), kind, root, anchor) && Dirname(anchor) == root ==>
      r == Ok(None) && fs.entries == old(fs.entries)
    ensures IsFoundAnchor(old(fs.entries), kind, root, anchor) && Dirname(anchor) != root
            && NoCollision(old(fs.entries), root, Dirname(anchor)) ==>
      r.Ok? && fs.entries == Promoted(old(fs.entries), root, Dirname(anchor))
    ensures IsFoundAnchor(old(fs.entries), kind, root, anchor) && Dirname(anchor) != root ==>
      && IsListing(snapshot, Children(old(fs.entries), root))
      && IsListing(listing, Children(old(fs.entries), Dirname(anchor)))
      && var (moved, hoisted) := MoveEach(old(fs.entries), Dirname(anchor), root, listing);
         (moved.Fail? ==> r == Err(moved.error) && fs.entries == hoisted)
         && (moved.Pass? ==> r.Ok? && fs.entries == RemoveEach(hoisted, root, snapshot))
  {
    ghost var t := fs.entries;
    anchor, snapshot, listing := [], [], [];
    var found := FindAnchor(fs, root, kind);
    if found.Err? {
      return Err(found.error), anchor, snapshot, listing;
    }
    if found.value.None? {
      return Err(NotRecognized(root)), anchor, snapshot, listing;
    }
    var a := found.value.value;
    anchor := a;
    var rootList := fs.Readdir(root);
    if rootList.Err? {
      // the walk has listed the root already
      assert false;
    }
    snapshot := rootList.value;
    var folder := Dirname(a);
    forall n | n in rootList.value
      ensures IsEntryName(n)
    {
      assert Basename(root + [n]) == n;
    }
    if folder != root {
      forall n | n in Children(t, folder)
        ensures IsEntryName(n)
      {
        assert Basename(folder + [n]) == n;
      }
      var moved, names := MoveFolderContents(fs, folder, root);
      listing := names;
      MoveEachFrame(t, folder, root, names);
      if NoCollision(t, root, folder) {
        PromoteWithoutCollision(t, folder, root, names, rootList.value);
      }
      if moved.Fail? {
        return Err(moved.error), a, snapshot, listing;
      }
    }
    var customer := CustomerOf(root, folder);
    if folder != root {
      ghost var h := fs.entries;
      DeleteAllFilesAndFolders(fs, root, rootList.value);
      RemoveEachFrame(h, root, rootList.value);
    }
    r := Ok(customer);
  }

  /** `getCustomerAndNormalizePlatformModule(folderPath)` */
  method GetCustomerAndNormalizePlatformModule(fs: FileSystem, root: Path) returns (r: Result<Option<Name>>, ghost anchor: Path, ghost snapshot: seq<Name>, ghost listing: seq<Name>)
    requires fs.Valid()
    modifies fs
    ensures fs.Valid()
    ensures SameOutside(old(fs.entries), fs.entries, root)
    ensures !IsDir(old(fs.entries), root) ==> r.Err? && fs.entries == old(fs.entries)
    ensures IsDir(old(fs.entries), root) && NoAnchorBelow(old(fs.entries), PlatformModule, root) ==>
      r == Err(NotRecognized(root)) && fs.entries == old(fs.entries)
    ensures IsDir(old(fs.entries), root) && !NoAnchorBelow(old(fs.entries), PlatformModule, root) ==>
      IsFoundAnchor(old(fs.entries), PlatformModule, root, anchor)
    ensures r.Ok? ==>
      IsFoundAnchor(old(fs.entries), PlatformModule, root, anchor) && r.value == CustomerOf(root, Dirname(anchor))
    ensures IsFoundAnchor(old(fs.entries), PlatformModule, root, anchor) && Dirname(anchor) == root ==>
      r == Ok(None) && fs.entries == old(fs.entries)
    ensures IsFoundAnchor(old(fs.entries), PlatformModule, root, anchor) && Dirname(anchor) != root
            && NoCollision(old(fs.entries), root, Dirname(anchor)) ==>
      r.Ok? && fs.entries == Promoted(old(fs.entries), root, Dirname(anchor))
    ensures IsFoundAnchor(old(fs.entries), PlatformModule, root, anchor) && Dirname(anchor) != root ==>
      && IsListing(snapshot, Children(old(fs.entries), root))
      && IsListing(listing, Children(old(fs.entries), Dirname(anchor)))
      && var (moved, hoisted) := MoveEach(old(fs.entries), Dirname(anchor), root, listing);
         (moved.Fail? ==> r == Err(moved.error) && fs.entries == hoisted)
         && (moved.Pass? ==> r.Ok? && fs.entries == RemoveEach(hoisted, root, snapshot))
  {
    r, anchor, snapshot, listing := NormalizeAnchored(fs, root, PlatformModule);
  }

  /** `getCustomerAndNormalizeUnitTest(folderPath)` */
  method GetCustomerAndNormalizeUnitTest(fs: FileSystem, root: Path) returns (r: Result<Option<Name>>, ghost anchor: Path, ghost snapshot: seq<Name>, ghost listing: seq<Name>)
    requires fs.Valid()
    modifies fs
    ensures fs.Valid()
    ensures SameOutside(old(fs.entries), fs.entries, root)
    ensures !IsDir(old(fs.entries), root) ==> r.Err? && fs.entries == old(fs.entries)
    ensures IsDir(old(fs.entries), root) && NoAnchorBelow(old(fs.entries), UnitTest, root) ==>
      r == Err(NotRecognized(root)) && fs.entries == old(fs.entries)
    ensures IsDir(old(fs.entries), root) && !NoAnchorBelow(old(fs.entries), UnitTest, root) ==>
      IsFoundAnchor(old(fs.entries), UnitTest, root, anchor)
    ensures r.Ok? ==>
      IsFoundAnchor(old(fs.entries), UnitTest, root, anchor) && r.value == CustomerOf(root, Dirname(anchor))
    ensures IsFoundAnchor(old(fs.entries), UnitTest, root, anchor) && Dirname(anchor) == root ==>
      r == Ok(None) && fs.entries == old(fs.entries)
    ensures IsFoundAnchor(old(fs.entries), UnitTest, root, anchor) && Dirname(anchor) != root
            && NoCollision(old(fs.entries), root, Dirname(anchor)) ==>
      r.Ok? && fs.entries == Promoted(old(fs.entries), root, Dirname(anchor))
    ensures IsFoundAnchor(old(fs.entries), UnitTest, root, anchor) && Dirname(anchor) != root ==>
      && IsListing(snapshot, Children(old(fs.entries), root))
      && IsListing(listing, Children(old(fs.entries), Dirname(anchor)))
      && var (moved, hoisted) := MoveEach(old(fs.entries), Dirname(anchor), root, listing);
         (moved.Fail? ==> r == Err(moved.error) && fs.entries == hoisted)
         && (moved.Pass? ==> r.Ok? && fs.entries == RemoveEach(hoisted, root, snapshot))
  {
    r, anchor, snapshot, listing := NormalizeAnchored(fs, root, UnitTest);
  }
}
