/**
 * The anchor locators of `src/zip/zipAnalyzer.js`: `isFolderPlatformModule`,
 * `isFolderUnitTest`, and the two stack walks `findPlatformModule` and
 * `findUnitTest`, which differ only in the folder test and share `FindAnchor`.
 *
 * The walk checks a folder before it pushes that folder's subdirectories, so
 * no folder on the way down from the start holds an anchor; it pops from the
 * end of the stack, so it does NOT promise the shallowest anchor: with
 * `a/x/PlatformModule.xml` and `b/PlatformModule.xml` under the start, a
 * listing `[b, a]` pushes `a` last and the deeper `a/x` is found first.
 */
module Anchors {
  import opened Paths
  import opened FileTree
  import opened FileSystems
  import opened Frontiers

  datatype AnchorKind = PlatformModule | UnitTest

  /** A name that marks a folder of this kind: the exact descriptor name, or
      any name ending in `.spec.js`, whether file or directory. */
  predicate IsAnchorName(kind: AnchorKind, n: Name) {
    match kind
    case PlatformModule => n == PlatformModuleXml
    case UnitTest => EndsWith(n, SpecSuffix)
  }

  /** Folder `f` directly holds an entry with an anchor name. */
  ghost predicate HoldsAnchor(t: Tree, kind: AnchorKind, f: Path) {
    exists n :: f + [n] in t && IsAnchorName(kind, n)
  }

  /** No folder at or under `start` holds an anchor. */
  ghost predicate NoAnchorBelow(t: Tree, kind: AnchorKind, start: Path) {
    forall d :: start <= d && IsDir(t, d) ==> !HoldsAnchor(t, kind, d)
  }

  /** `a` is an anchor entry in a folder at or under `start`, and no folder
      strictly between `start` (included) and that folder holds one. */
  ghost predicate IsFoundAnchor(t: Tree, kind: AnchorKind, start: Path, a: Path) {
    && a != [] && a in t && IsAnchorName(kind, Basename(a))
    && start <= Dirname(a) && IsDir(t, Dirname(a))
    && forall k :: |start| <= k < |Dirname(a)| ==> !HoldsAnchor(t, kind, Dirname(a)[..k])
  }

  /** `isFolderPlatformModule`: the descriptor's path when the folder holds an
      entry of that exact name, `false` (None) otherwise. */
  function IsFolderPlatformModule(fs: FileSystem, folder: Path): (r: Option<Path>)
    reads fs
    ensures r.Some? <==> HoldsAnchor(fs.entries, PlatformModule, folder)
    ensures r.Some? ==> r.value == folder + [PlatformModuleXml] && r.value in fs.entries
  {
    var xml := folder + [PlatformModuleXml];
    assert IsAnchorName(PlatformModule, PlatformModuleXml);
    if fs.Exists(xml) then Some(xml) else None
  }

  /** `isFolderUnitTest`: lists the folder (throwing if it cannot) and returns
      the first listed entry whose name ends in `.spec.js`. */
  method IsFolderUnitTest(fs: FileSystem, folder: Path) returns (r: Result<Option<Path>>)
    ensures r.Err? <==> !IsDir(fs.entries, folder)
    ensures r.Ok? ==> (r.value.Some? <==> HoldsAnchor(fs.entries, UnitTest, folder))
    ensures r.Ok? && r.value.Some? ==>
      var a := r.value.value;
      a != [] && Dirname(a) == folder && a in fs.entries && IsAnchorName(UnitTest, Basename(a))
  {
    var listing := fs.Readdir(folder);
    if listing.Err? {
      return Err(listing.error);
    }
    var names := listing.value;
    for i := 0 to |names|
      invariant forall j :: 0 <= j < i ==> !EndsWith(names[j], SpecSuffix)
    {
      if EndsWith(names[i], SpecSuffix) {
        assert names[i] in Children(fs.entries, folder);
        return Ok(Some(folder + [names[i]]));
      }
    }
    return Ok(None);
  }

  /** The directories among the listed children of `dir`, as paths, in
      listing order (the `filter(statSync(..).isDirectory())` and `map(join)`
      of the walks). */
  method SubdirectoryPaths(fs: FileSystem, dir: Path, names: seq<Name>) returns (subs: seq<Path>)
    requires IsListing(names, Children(fs.entries, dir))
    ensures Distinct(subs)
    ensures forall i :: 0 <= i < |subs| ==>
      |subs[i]| == |dir| + 1 && dir <= subs[i] && IsDir(fs.entries, subs[i])
    ensures forall n :: IsDir(fs.entries, dir + [n]) ==> dir + [n] in subs
  {
    subs := [];
    for i := 0 to |names|
      invariant Distinct(subs)
      invariant forall k :: 0 <= k < |subs| ==>
        |subs[k]| == |dir| + 1 && dir <= subs[k] && IsDir(fs.entries, subs[k]) && subs[k][|dir|] in names[..i]
      invariant forall j :: 0 <= j < i && IsDir(fs.entries, dir + [names[j]]) ==> dir + [names[j]] in subs
    {
      var child := dir + [names[i]];
      assert names[i] in Children(fs.entries, dir);
      if fs.IsDirectory(child) {
        assert names[i] !in names[..i];
        assert child[|dir|] == names[i];
        subs := subs + [child];
      }
    }
    forall n | IsDir(fs.entries, dir + [n])
      ensures dir + [n] in subs
    {
      assert n in names;
    }
  }

  /** The walk's invariant: the frontier bookkeeping, and no visited folder
      holds an anchor. */
  ghost predicate WalkInvariant(t: Tree, kind: AnchorKind, start: Path, stack: seq<Path>, visited: set<Path>) {
    && Frontier(t, start, stack, visited)
    && forall v :: v in visited ==> !HoldsAnchor(t, kind, v)
  }

  /** Visiting the folder on top of the stack (it has no anchor) and pushing
      its subdirectories keeps the invariant. */
  lemma WalkStep(t: Tree, kind: AnchorKind, start: Path, rest: seq<Path>, cur: Path,
                 visited: set<Path>, subs: seq<Path>)
    requires WellFormed(t)
    requires WalkInvariant(t, kind, start, rest + [cur], visited)
    requires IsDir(t, cur) && !HoldsAnchor(t, kind, cur)
    requires Distinct(subs)
    requires forall i :: 0 <= i < |subs| ==> |subs[i]| == |cur| + 1 && cur <= subs[i] && IsDir(t, subs[i])
    requires forall n :: IsDir(t, cur + [n]) ==> cur + [n] in subs
    ensures WalkInvariant(t, kind, start, rest + subs, visited + {cur})
  {
    FrontierTop(t, start, rest, cur, visited);
    PushedChildren(t, rest, cur, subs);
    FrontierStep(t, start, rest, cur, visited, rest + subs);
  }

  /** The stack after pushing `cur`'s subdirectories: distinct, and holding
      exactly the old stack and the directories under `cur`. */
  lemma PushedChildren(t: Tree, rest: seq<Path>, cur: Path, subs: seq<Path>)
    requires Distinct(rest) && forall n :: cur + [n] !in rest
    requires Distinct(subs)
    requires forall i :: 0 <= i < |subs| ==> |subs[i]| == |cur| + 1 && cur <= subs[i] && IsDir(t, subs[i])
    requires forall n :: IsDir(t, cur + [n]) ==> cur + [n] in subs
    ensures Distinct(rest + subs)
    ensures forall x :: x in rest + subs <==> x in rest || (|x| == |cur| + 1 && cur <= x && IsDir(t, x))
  {
    forall x
      ensures x in rest + subs <==> x in rest || (|x| == |cur| + 1 && cur <= x && IsDir(t, x))
    {
      if |x| == |cur| + 1 && cur <= x {
        assert x == cur + [x[|cur|]];
      }
    }
    forall x | x in subs
      ensures x !in rest
    {
      assert x == cur + [x[|cur|]];
    }
    DistinctConcat(rest, subs);
  }

  /** The stack walk shared by `findPlatformModule` and `findUnitTest`:
      throws when the start cannot be listed, returns null (None) exactly when
      no folder at or under the start holds an anchor, and otherwise an anchor
      entry with no anchor on the way down to its folder. */
  method FindAnchor(fs: FileSystem, start: Path, kind: AnchorKind) returns (r: Result<Option<Path>>)
    requires fs.Valid()
    ensures r.Err? <==> !IsDir(fs.entries, start)
    ensures r == Ok(None) <==> IsDir(fs.entries, start) && NoAnchorBelow(fs.entries, kind, start)
    ensures r.Ok? && r.value.Some? ==> IsFoundAnchor(fs.entries, kind, start, r.value.value)
  {
    ghost var t := fs.entries;
    var stack := [start];
    ghost var visited: set<Path> := {};
    FrontierInit(t, start);
    while stack != []
      invariant WalkInvariant(t, kind, start, stack, visited)
      decreases DirsBelow(t, start) + {start} - visited
    {
      var cur := stack[|stack| - 1];
      SplitLast(stack);
      stack := stack[..|stack| - 1];
      var found: Option<Path>;
      if kind == PlatformModule {
        found := IsFolderPlatformModule(fs, cur);
      } else {
        var m := IsFolderUnitTest(fs, cur);
        if m.Err? {
          FrontierUnlisted(t, start, stack, cur, visited);
          return Err(m.error);
        }
        found := m.value;
      }
      if found.Some? {
        assert Basename(found.value) == Basename(cur + [Basename(found.value)]);
        WalkFound(t, kind, start, stack, cur, visited, found.value);
        return Ok(Some(found.value));
      }
      var listing := fs.Readdir(cur);
      if listing.Err? {
        FrontierUnlisted(t, start, stack, cur, visited);
        return Err(listing.error);
      }
      var subs := SubdirectoryPaths(fs, cur, listing.value);
      WalkStep(t, kind, start, stack, cur, visited, subs);
      visited := visited + {cur};
      stack := stack + subs;
    }
    WalkDone(t, kind, start, visited);
    return Ok(None);
  }

  /** An anchor in the folder on top of the stack is a first one found. */
  lemma WalkFound(t: Tree, kind: AnchorKind, start: Path, rest: seq<Path>, cur: Path, visited: set<Path>, a: Path)
    requires WellFormed(t) && WalkInvariant(t, kind, start, rest + [cur], visited)
    requires a != [] && a in t && Dirname(a) == cur && IsAnchorName(kind, Basename(a))
    ensures IsDir(t, start) && IsFoundAnchor(t, kind, start, a) && !NoAnchorBelow(t, kind, start)
  {
    FrontierTop(t, start, rest, cur, visited);
    assert cur + [Basename(a)] == a;
    if start != cur {
      AncestorIsDir(t, start, cur);
    }
    assert HoldsAnchor(t, kind, cur);
  }

  /** An empty stack means no folder under the start holds an anchor. */
  lemma WalkDone(t: Tree, kind: AnchorKind, start: Path, visited: set<Path>)
    requires WalkInvariant(t, kind, start, [], visited)
    ensures IsDir(t, start) && NoAnchorBelow(t, kind, start)
  {
    FrontierDone(t, start, visited);
  }

  /** The contract of the walk does not promise the shallowest anchor, and
      no contract could: with `a/x/PlatformModule.xml` and `b/PlatformModule.xml`
      under the start, either one may come first, depending on the order in
      which the start folder is listed. */
  lemma DeeperAnchorAllowed()
    ensures var t := map[[] := Dir, ["a"] := Dir, ["a", "x"] := Dir, ["a", "x", PlatformModuleXml] := File,
                         ["b"] := Dir, ["b", PlatformModuleXml] := File];
      && WellFormed(t)
      && IsFoundAnchor(t, PlatformModule, [], ["a", "x", PlatformModuleXml])
      && IsFoundAnchor(t, PlatformModule, [], ["b", PlatformModuleXml])
  {
    var t := map[[] := Dir, ["a"] := Dir, ["a", "x"] := Dir, ["a", "x", PlatformModuleXml] := File,
                 ["b"] := Dir, ["b", PlatformModuleXml] := File];
    TwoAnchorTreeWellFormed(t);
    assert Dirname(["a", "x", PlatformModuleXml]) == ["a", "x"];
    assert Dirname(["b", PlatformModuleXml]) == ["b"];
    forall n | IsAnchorName(PlatformModule, n)
      ensures [] + [n] !in t && ["a"] + [n] !in t
    {
      assert n != "a" && n != "b" && n != "x";
      assert [] + [n] == [n] && ["a"] + [n] == ["a", n];
    }
    assert ["a", "x"][..0] == ["b"][..0] == [];
    assert ["a", "x"][..1] == ["a"];
  }

  /** The tree of `DeeperAnchorAllowed` is a tree. */
  lemma TwoAnchorTreeWellFormed(t: Tree)
    requires t == map[[] := Dir, ["a"] := Dir, ["a", "x"] := Dir, ["a", "x", PlatformModuleXml] := File,
                      ["b"] := Dir, ["b", PlatformModuleXml] := File]
    ensures WellFormed(t)
  {
    assert IsEntryName(PlatformModuleXml) && IsEntryName("a") && IsEntryName("b") && IsEntryName("x");
    forall p | p in t && p != []
      ensures IsDir(t, Dirname(p)) && IsEntryName(Basename(p))
    {
      if p == ["a", "x", PlatformModuleXml] {
        assert Dirname(p) == ["a", "x"] && Basename(p) == PlatformModuleXml;
      } else if p == ["a", "x"] {
        assert Dirname(p) == ["a"] && Basename(p) == "x";
      } else if p == ["b", PlatformModuleXml] {
        assert Dirname(p) == ["b"] && Basename(p) == PlatformModuleXml;
      } else if p == ["a"] {
        assert Dirname(p) == [] && Basename(p) == "a";
      } else {
        assert p == ["b"];
        assert Dirname(p) == [] && Basename(p) == "b";
      }
    }
  }

  /** `findPlatformModule(startPath)` */
  method FindPlatformModule(fs: FileSystem, start: Path) returns (r: Result<Option<Path>>)
    requires fs.Valid()
    ensures r.Err? <==> !IsDir(fs.entries, start)
    ensures r == Ok(None) <==> IsDir(fs.entries, start) && NoAnchorBelow(fs.entries, PlatformModule, start)
    ensures r.Ok? && r.value.Some? ==> IsFoundAnchor(fs.entries, PlatformModule, start, r.value.value)
  {
    r := FindAnchor(fs, start, PlatformModule);
  }

  /** `findUnitTest(startPath)` */
  method FindUnitTest(fs: FileSystem, start: Path) returns (r: Result<Option<Path>>)
    requires fs.Valid()
    ensures r.Err? <==> !IsDir(fs.entries, start)
    ensures r == Ok(None) <==> IsDir(fs.entries, start) && NoAnchorBelow(fs.entries, UnitTest, start)
    ensures r.Ok? && r.value.Some? ==> IsFoundAnchor(fs.entries, UnitTest, start, r.value.value)
  {
    r := FindAnchor(fs, start, UnitTest);
  }
}
