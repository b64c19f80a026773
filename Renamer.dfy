/**
 * `renameFoldersInDepthFirstOrder` of `src/zip/zipAnalyzer.js`: walks the
 * folders at and under a root and drops the leading `$` from the name of
 * every folder other than the root whose name starts with one.
 *
 * Despite its name the walk is breadth-first: it takes folders off the end of
 * its list and puts subdirectories at the front. It renames a folder AFTER
 * queueing that folder's subdirectories under the old path, so once an
 * escaped folder that has a subdirectory is renamed, the queued path is gone
 * and the walk throws when it reaches it.
 */
module EscapeRenamer {
  import opened Paths
  import opened FileTree
  import opened FileSystems
  import opened Frontiers

  /** The path with the escape character dropped from its last name
      (`path.join(dirname, basename.slice(1))`); a path whose last name has no
      escape character stays as it is. `path.join` resolves what is left of
      the name: `$` and `$.` name the parent folder, `$..` the grandparent. */
  function Unescaped(d: Path): (u: Path)
    ensures d != [] && IsEscaped(Basename(d)) && IsEntryName(StripEscape(Basename(d))) ==>
      u != [] && Dirname(u) == Dirname(d) && [EscapeChar] + Basename(u) == Basename(d)
    ensures d != [] && IsEscaped(Basename(d)) && !IsEntryName(StripEscape(Basename(d))) ==>
      && u < d
      && (Basename(d) == [EscapeChar, '.', '.'] ==> u == Dirname(Dirname(d)))
      && (Basename(d) != [EscapeChar, '.', '.'] ==> u == Dirname(d))
    ensures !(d != [] && IsEscaped(Basename(d))) ==> u == d
  {
    if d != [] && IsEscaped(Basename(d)) then Join(Dirname(d), StripEscape(Basename(d))) else d
  }

  /** `d` is a folder strictly under `root` whose name starts with the escape
      character: one the walk renames when it reaches it. */
  ghost predicate EscapedDir(t: Tree, root: Path, d: Path) {
    root < d && IsDir(t, d) && IsEscaped(Basename(d))
  }

  /** All escaped folders strictly under `root`. */
  ghost function EscapedBelow(t: Tree, root: Path): set<Path> {
    set d | d in t && EscapedDir(t, root, d)
  }

  /** No escaped folder's unescaped name is taken already. (A folder named
      `$` alone is excluded too: its unescaped path is its parent.) */
  ghost predicate NoTargetTaken(t: Tree, root: Path) {
    forall d :: EscapedDir(t, root, d) ==> Unescaped(d) !in t
  }

  /** The root is a folder and no renaming can collide with an entry. */
  ghost predicate Unambiguous(t: Tree, root: Path) {
    IsDir(t, root) && NoTargetTaken(t, root)
  }

  /** No escaped folder has a subdirectory. */
  ghost predicate NoEscapedParent(t: Tree, root: Path) {
    forall d, n :: EscapedDir(t, root, d) ==> !IsDir(t, d + [n])
  }

  /** No folder of `R` is `q` or one of its ancestors. */
  ghost predicate NotUnder(R: set<Path>, q: Path) {
    forall d :: d in R ==> !(d <= q)
  }

  /** Entries of `t0` outside the folders of `R` are where they were. */
  ghost predicate KeptInPlace(t0: Tree, t: Tree, R: set<Path>) {
    forall q {:trigger NotUnder(R, q)} :: q in t0 && NotUnder(R, q) ==> q in t && t[q] == t0[q]
  }

  /** Each folder of `R` has moved, with everything in it, to its unescaped
      path. */
  ghost predicate MovedAlong(t0: Tree, t: Tree, R: set<Path>) {
    forall d, q {:trigger Rebase(q, d, Unescaped(d))} :: d in R && q in t0 && d <= q ==>
      Rebase(q, d, Unescaped(d)) in t && t[Rebase(q, d, Unescaped(d))] == t0[q]
  }

  /** Every entry of `t` is one of those. */
  ghost predicate NothingElse(t0: Tree, t: Tree, R: set<Path>) {
    forall p :: p in t ==>
      (p in t0 && NotUnder(R, p))
      || exists d :: d in R && Unescaped(d) <= p && Rebase(p, Unescaped(d), d) in t0
  }

  /** `t` is `t0` with the folders of `R` renamed to their unescaped paths. */
  ghost predicate RenamedState(t0: Tree, t: Tree, R: set<Path>) {
    KeptInPlace(t0, t, R) && MovedAlong(t0, t, R) && NothingElse(t0, t, R)
  }

  /** The folder `cur` is renamed when the walk visits it. */
  predicate Renames(root: Path, cur: Path) {
    root < cur && IsEscaped(Basename(cur))
  }

  /** The folders the walk has renamed once it has visited `visited`. */
  ghost function RenamedSet(visited: set<Path>, root: Path): set<Path> {
    set v | v in visited && Renames(root, v)
  }

  /** No visited folder lies under a renamed one: every folder was listed
      under a path that still existed. */
  ghost predicate Live(visited: set<Path>, R: set<Path>) {
    forall v, d :: v in visited && d in R ==> !(d < v)
  }

  // ---------------------------------------------------------------------
  // A finite universe of paths, for termination: renaming only shortens a
  // name to one of its suffixes, so every path the walk meets is made of
  // suffixes of names of the original tree and is no deeper than it.

  /** Every suffix of every name in `t`. */
  ghost function Segments(t: Tree): set<Name> {
    set p, i, j | p in t && 0 <= i < |p| && 0 <= j <= |p[i]| :: p[i][j..]
  }

  /** A length no path in `s` exceeds. */
  ghost function MaxLength(s: set<Path>): (m: nat)
    ensures forall p :: p in s ==> |p| <= m
  {
    if s == {} then 0
    else
      var p :| p in s;
      var m := MaxLength(s - {p});
      if |p| > m then |p| else m
  }

  ghost predicate InUniverse(p: Path, names: set<Name>, depth: nat) {
    |p| <= depth && forall i :: 0 <= i < |p| ==> p[i] in names
  }

  ghost predicate Bounded(t: Tree, names: set<Name>, depth: nat) {
    forall p :: p in t ==> InUniverse(p, names, depth)
  }

  /** Every path of at most `depth` names drawn from `names`. */
  ghost function AllPaths(names: set<Name>, depth: nat): set<Path> {
    if depth == 0 then {[]}
    else
      var shorter := AllPaths(names, depth - 1);
      shorter + set p, n | p in shorter && n in names :: p + [n]
  }

  lemma {:induction false} InAllPaths(p: Path, names: set<Name>, depth: nat)
    requires InUniverse(p, names, depth)
    ensures p in AllPaths(names, depth)
    decreases depth
  {
    if depth > 0 {
      if |p| < depth {
        InAllPaths(p, names, depth - 1);
      } else {
        var q := p[..|p| - 1];
        InAllPaths(q, names, depth - 1);
        assert p == q + [p[|p| - 1]];
      }
    }
  }

  /** The original tree lies in its own universe, whose names are closed
      under dropping a leading escape character. */
  lemma UniverseInit(t: Tree)
    ensures Bounded(t, Segments(t), MaxLength(t.Keys))
    ensures forall n :: n in Segments(t) && IsEscaped(n) ==> StripEscape(n) in Segments(t)
  {
    var names := Segments(t);
    forall p, i | p in t && 0 <= i < |p|
      ensures p[i] in names
    {
      assert p[i][0..] == p[i];
    }
    forall n | n in names && IsEscaped(n)
      ensures StripEscape(n) in names
    {
      var p, i, j :| p in t && 0 <= i < |p| && 0 <= j <= |p[i]| && n == p[i][j..];
      assert StripEscape(n) == p[i][j + 1..];
    }
  }

  /** Renaming an escaped entry to its unescaped path stays in the universe. */
  lemma RenameStaysBounded(t: Tree, names: set<Name>, depth: nat, src: Path)
    requires WellFormed(t) && Bounded(t, names, depth)
    requires forall n :: n in names && IsEscaped(n) ==> StripEscape(n) in names
    requires src != [] && IsEscaped(Basename(src))
    requires RenameSpec(t, src, Unescaped(src)).Ok?
    ensures Bounded(RenameSpec(t, src, Unescaped(src)).value, names, depth)
  {
    var dst := Unescaped(src);
    if src != dst {
      RenameIsMove(t, src, dst);
      assert |Basename(src)| > 1;
      var m := MoveTree(t, src, dst);
      forall q | q in m
        ensures InUniverse(q, names, depth)
      {
        if dst <= q && Rebase(q, dst, src) in t {
          var r := Rebase(q, dst, src);
          assert InUniverse(r, names, depth);
          assert InUniverse(src, names, depth);
          forall i | 0 <= i < |q|
            ensures q[i] in names
          {
            if i < |dst| - 1 {
              assert q[i] == src[i];
            } else if i == |dst| - 1 {
              assert q[i] == StripEscape(Basename(src));
            } else {
              assert q[i] == r[i];
            }
          }
        }
      }
    }
  }

  lemma BoundedInAll(t: Tree, names: set<Name>, depth: nat)
    requires Bounded(t, names, depth)
    ensures forall p :: p in t ==> p in AllPaths(names, depth)
  {
    forall p | p in t
      ensures p in AllPaths(names, depth)
    {
      InAllPaths(p, names, depth);
    }
  }

  // ---------------------------------------------------------------------
  // The queue, whatever the tree: distinct, unvisited paths under the root,
  // each with its parent visited, so no path is ever queued twice.

  ghost predicate QueueShape(root: Path, queue: seq<Path>, visited: set<Path>, universe: set<Path>) {
    && (visited == {} ==> queue == [root])
    && Distinct(queue)
    && (forall x :: x in queue ==> root <= x && x !in visited && x in universe)
    && (forall x :: x in queue && x != root ==> Dirname(x) in visited)
    && (forall v :: v in visited && v != root ==> Dirname(v) in visited)
  }

  lemma QueueTop(root: Path, rest: seq<Path>, cur: Path, visited: set<Path>, universe: set<Path>)
    requires QueueShape(root, rest + [cur], visited, universe)
    ensures root <= cur && cur !in visited && cur in universe && cur !in rest
    ensures forall n :: cur + [n] !in rest && cur + [n] !in visited
    ensures Distinct(rest)
  {
    var queue := rest + [cur];
    forall i, j | 0 <= i < j < |rest|
      ensures rest[i] != rest[j]
    {
      assert queue[i] == rest[i] && queue[j] == rest[j];
    }
    assert cur in queue && queue[|rest|] == cur;
    forall i | 0 <= i < |rest|
      ensures rest[i] != cur
    {
      assert queue[i] == rest[i];
    }
    forall n
      ensures cur + [n] !in rest && cur + [n] !in visited
    {
      var c := cur + [n];
      assert Dirname(c) == cur;
      assert c in rest ==> c in queue;
    }
  }

  lemma QueueStep(t: Tree, root: Path, rest: seq<Path>, cur: Path, visited: set<Path>,
                  universe: set<Path>, next: seq<Path>)
    requires QueueShape(root, rest + [cur], visited, universe)
    requires forall p :: p in t ==> p in universe
    requires Distinct(next)
    requires forall x :: x in next <==> x in rest || (|x| == |cur| + 1 && cur <= x && IsDir(t, x))
    ensures QueueShape(root, next, visited + {cur}, universe)
  {
    QueueTop(root, rest, cur, visited, universe);
    var queue := rest + [cur];
    forall x | x in next
      ensures root <= x && x !in visited + {cur} && x in universe && (x != root ==> Dirname(x) in visited + {cur})
    {
      if x in rest {
        assert x in queue;
      } else {
        assert x == cur + [x[|cur|]];
      }
    }
    assert cur != root ==> Dirname(cur) in visited;
  }

  // ---------------------------------------------------------------------
  // Breadth-first order: new folders go in at the front of the queue and the
  // walk takes the one at the end, so the queue is first in, first out.

  /** The queue holds folders of two depths only: its first `k` entries are
      one level deeper than `level`, the rest are at `level`, so the walk
      takes every folder at `level` before any deeper one. */
  ghost predicate LevelBlocks(queue: seq<Path>, k: nat, level: nat) {
    && k <= |queue|
    && (forall i :: 0 <= i < k ==> |queue[i]| == level + 1)
    && (forall i :: k <= i < |queue| ==> |queue[i]| == level)
  }

  /** Taking `cur` off the end and putting its subdirectories, one level
      deeper, in front keeps the two blocks, with `cur`'s depth, never less
      than `level`, as the new level. */
  lemma LevelStep(rest: seq<Path>, cur: Path, added: seq<Path>, k: nat, level: nat)
    requires LevelBlocks(rest + [cur], k, level)
    requires forall x :: x in added ==> |x| == |cur| + 1
    ensures level <= |cur|
    ensures LevelBlocks(added + rest, if k <= |rest| then |added| + k else |added|, |cur|)
  {
    var queue := rest + [cur];
    var next := added + rest;
    assert queue[|rest|] == cur;
    var k' := if k <= |rest| then |added| + k else |added|;
    forall i | 0 <= i < |next|
      ensures |next[i]| == if i < k' then |cur| + 1 else |cur|
    {
      if i < |added| {
        assert next[i] in added;
      } else {
        assert next[i] == queue[i - |added|];
      }
    }
  }

  /** Folders taken in breadth-first order: none is shallower than the one
      taken just before it. */
  ghost predicate BreadthFirst(order: seq<Path>) {
    forall i :: 0 < i < |order| ==> |order[i - 1]| <= |order[i]|
  }

  /** In breadth-first order no folder is shallower than any taken before it,
      so a folder is taken after every strict ancestor of it that is taken. */
  lemma {:induction false} BreadthFirstSorted(order: seq<Path>)
    requires BreadthFirst(order)
    ensures forall i, j :: 0 <= i < j < |order| ==> |order[i]| <= |order[j]|
    ensures forall i, j :: 0 <= i < |order| && 0 <= j < |order| && order[i] < order[j] ==> i < j
    decreases |order|
  {
    if |order| > 1 {
      var init := order[..|order| - 1];
      assert BreadthFirst(init) by {
        forall i | 0 < i < |init|
          ensures |init[i - 1]| <= |init[i]|
        {
          assert init[i - 1] == order[i - 1] && init[i] == order[i];
        }
      }
      BreadthFirstSorted(init);
      forall i, j | 0 <= i < j < |order|
        ensures |order[i]| <= |order[j]|
      {
        if j < |order| - 1 {
          assert order[i] == init[i] && order[j] == init[j];
        } else if i < j - 1 {
          assert order[i] == init[i] && order[j - 1] == init[j - 1];
        }
      }
    }
  }

  /** The walk's record of the folders it got through, in the order it took
      them: each once, all under the root, breadth-first, the last one no
      deeper than `level`. */
  ghost predicate VisitOrder(root: Path, order: seq<Path>, visited: set<Path>, level: nat) {
    && BreadthFirst(order)
    && (order != [] ==> |order[|order| - 1]| <= level)
    && Distinct(order)
    && (forall p :: p in order <==> p in visited)
    && (forall p :: p in order ==> root <= p)
  }

  /** Going through a new folder `cur` no shallower than `level` extends the
      record. */
  lemma VisitOrderStep(root: Path, order: seq<Path>, visited: set<Path>, level: nat, cur: Path)
    requires VisitOrder(root, order, visited, level)
    requires cur !in visited && root <= cur && level <= |cur|
    ensures VisitOrder(root, order + [cur], visited + {cur}, |cur|)
  {
    DistinctConcat(order, [cur]);
    var next := order + [cur];
    forall i | 0 < i < |next|
      ensures |next[i - 1]| <= |next[i]|
    {
      if i < |order| {
        assert next[i - 1] == order[i - 1] && next[i] == order[i];
      }
    }
  }

  /** The escaped folders among those in `order`: the ones the walk renamed
      as it went through them. */
  ghost function RenamedAlong(order: seq<Path>, root: Path): set<Path> {
    set p | p in order && Renames(root, p)
  }

  /** The folders renamed so far are the escaped ones in the record. */
  lemma RenamedInOrder(root: Path, order: seq<Path>, visited: set<Path>, level: nat)
    requires VisitOrder(root, order, visited, level)
    ensures RenamedAlong(order, root) == RenamedSet(visited, root)
  {
  }

  /** The walk's ordering facts: the queue in two depth blocks, and the
      record of folders gone through. */
  ghost predicate WalkOrder(root: Path, queue: seq<Path>, k: nat, order: seq<Path>, visited: set<Path>, level: nat) {
    LevelBlocks(queue, k, level) && VisitOrder(root, order, visited, level)
  }

  /** One pass of the walk keeps its ordering facts. */
  lemma WalkOrderStep(root: Path, rest: seq<Path>, cur: Path, added: seq<Path>, k: nat,
                      order: seq<Path>, visited: set<Path>, level: nat)
    requires WalkOrder(root, rest + [cur], k, order, visited, level)
    requires cur !in visited && root <= cur
    requires forall x :: x in added ==> |x| == |cur| + 1
    ensures WalkOrder(root, added + rest, if k <= |rest| then |added| + k else |added|,
                      order + [cur], visited + {cur}, |cur|)
  {
    LevelStep(rest, cur, added, k, level);
    VisitOrderStep(root, order, visited, level, cur);
  }

  // ---------------------------------------------------------------------
  // Facts about unescaped paths when no renaming collides.

  lemma PrefixesComparable<T>(a: seq<T>, b: seq<T>, p: seq<T>)
    ensures a <= p && b <= p ==> a <= b || b <= a
  {
    if a <= p && b <= p && |a| <= |b| {
      assert a == p[..|a|] && b[..|a|] == p[..|a|];
    } else if a <= p && b <= p {
      assert b == p[..|b|] && a[..|b|] == p[..|b|];
    }
  }

  lemma PrefixOfChild<T>(d: seq<T>, p: seq<T>, n: T)
    ensures d <= p + [n] ==> d <= p || d == p + [n]
  {
    if d <= p + [n] && |d| <= |p| {
      assert d == (p + [n])[..|d|] && p[..|d|] == (p + [n])[..|d|];
    }
  }

  /** An escaped folder's unescaped path keeps its parent and a non-empty
      name. */
  lemma TargetShape(t0: Tree, root: Path, d: Path)
    requires WellFormed(t0) && NoTargetTaken(t0, root) && EscapedDir(t0, root, d)
    ensures |Basename(d)| > 1 && |Unescaped(d)| == |d| && Unescaped(d) !in t0
    ensures Unescaped(d) == Dirname(d) + [Basename(Unescaped(d))]
    ensures IsEntryName(StripEscape(Basename(d)))
  {
    assert IsDir(t0, Dirname(d));
  }

  /** A folder named `$`, `$.` or `$..` unescapes to one of its own
      ancestors, a folder that holds it: the rename fails as a move onto a
      non-empty directory, and such a tree is not unambiguous. */
  lemma DotTargetCollides(t0: Tree, root: Path, d: Path)
    requires WellFormed(t0) && EscapedDir(t0, root, d)
    requires !IsEntryName(StripEscape(Basename(d)))
    ensures Unescaped(d) in t0 && !NoTargetTaken(t0, root)
    ensures RenameSpec(t0, d, Unescaped(d)) == Err(DirectoryNotEmpty(Unescaped(d)))
  {
    var u := Unescaped(d);
    assert u < d;
    AncestorIsDir(t0, u, d);
    AncestorHoldsChild(t0, u, d);
    assert d in t0 && d != u && !(d <= u) && t0[d] == Dir && t0[u] == Dir;
  }

  /** The smallest such tree: a root holding one folder named `$.`. */
  lemma DollarDotNotUnambiguous()
    ensures var t0 := map[[] := Dir, [[EscapeChar, '.']] := Dir];
      WellFormed(t0) && IsDir(t0, []) && !Unambiguous(t0, [])
  {
    var t0 := map[[] := Dir, [[EscapeChar, '.']] := Dir];
    var d := [[EscapeChar, '.']];
    assert WellFormed(t0) by {
      forall p | p in t0 && p != []
        ensures IsDir(t0, Dirname(p)) && IsEntryName(Basename(p))
      {
        assert p == d;
      }
    }
    assert EscapedDir(t0, [], d);
    DotTargetCollides(t0, [], d);
  }

  /** An unescaped path is no ancestor of any original entry. */
  lemma TargetOutside(t0: Tree, root: Path, d: Path, x: Path)
    requires WellFormed(t0) && NoTargetTaken(t0, root) && EscapedDir(t0, root, d) && x in t0
    ensures !(Unescaped(d) <= x)
  {
    assert Unescaped(d) != x;
    if |Unescaped(d)| < |x| && Unescaped(d) <= x {
      AncestorIsDir(t0, Unescaped(d), x);
    }
  }

  /** Distinct escaped folders have unrelated unescaped paths. */
  lemma TargetsApart(t0: Tree, root: Path, d1: Path, d2: Path)
    requires WellFormed(t0) && NoTargetTaken(t0, root)
    requires EscapedDir(t0, root, d1) && EscapedDir(t0, root, d2)
    ensures Unescaped(d1) <= Unescaped(d2) ==> d1 == d2
  {
    var u1, u2 := Unescaped(d1), Unescaped(d2);
    if u1 <= u2 {
      TargetShape(t0, root, d1);
      TargetShape(t0, root, d2);
      assert IsDir(t0, Dirname(d2));
      TargetOutside(t0, root, d1, Dirname(d2));
      PrefixOfChild(u1, Dirname(d2), Basename(u2));
      assert u1 == u2;
      SameTargetSameFolder(d1, d2);
    }
  }

  /** Two escaped paths with the same unescaped path are the same path. */
  lemma SameTargetSameFolder(d1: Path, d2: Path)
    requires d1 != [] && IsEscaped(Basename(d1)) && IsEntryName(StripEscape(Basename(d1)))
    requires d2 != [] && IsEscaped(Basename(d2)) && IsEntryName(StripEscape(Basename(d2)))
    requires Unescaped(d1) == Unescaped(d2)
    ensures d1 == d2
  {
    SplitLast(d1);
    SplitLast(d2);
  }

  /** An unescaped path is neither an ancestor of `cur` nor under it, when
      `cur` is an original entry above no folder of `R`. */
  lemma TargetBesideCur(t0: Tree, root: Path, d: Path, cur: Path)
    requires WellFormed(t0) && NoTargetTaken(t0, root) && EscapedDir(t0, root, d)
    requires cur in t0 && !(cur <= d)
    ensures !(Unescaped(d) <= cur) && !(cur <= Unescaped(d))
  {
    TargetShape(t0, root, d);
    TargetOutside(t0, root, d, cur);
    PrefixOfChild(cur, Dirname(d), Basename(Unescaped(d)));
    assert Dirname(d) <= d;
  }

  // ---------------------------------------------------------------------
  // One rename when nothing collides.

  /** The hypotheses of a rename step: `cur` is an escaped folder that is
      neither under a renamed folder nor above one. */
  ghost predicate StepReady(t0: Tree, t: Tree, root: Path, R: set<Path>, cur: Path) {
    && WellFormed(t0) && WellFormed(t) && NoTargetTaken(t0, root)
    && RenamedState(t0, t, R)
    && (forall d :: d in R ==> EscapedDir(t0, root, d))
    && EscapedDir(t0, root, cur) && NotUnder(R, cur)
    && (forall d :: d in R ==> !(cur <= d))
  }

  lemma StepKept(t0: Tree, t: Tree, root: Path, R: set<Path>, cur: Path)
    requires StepReady(t0, t, root, R, cur)
    ensures KeptInPlace(t0, MoveTree(t, cur, Unescaped(cur)), R + {cur})
  {
    var m := MoveTree(t, cur, Unescaped(cur));
    forall q | q in t0 && NotUnder(R + {cur}, q)
      ensures q in m && m[q] == t0[q]
    {
      assert NotUnder(R, q) && !(cur <= q);
      TargetOutside(t0, root, cur, q);
    }
  }

  lemma StepMovedCur(t0: Tree, t: Tree, root: Path, R: set<Path>, cur: Path, q: Path)
    requires StepReady(t0, t, root, R, cur)
    requires q in t0 && cur <= q
    ensures var m := MoveTree(t, cur, Unescaped(cur));
      Rebase(q, cur, Unescaped(cur)) in m && m[Rebase(q, cur, Unescaped(cur))] == t0[q]
  {
    TargetShape(t0, root, cur);
    forall d | d in R
      ensures !(d <= q)
    {
      PrefixesComparable(d, cur, q);
    }
    assert NotUnder(R, q);
    assert q in t && t[q] == t0[q];
    var p := Rebase(q, cur, Unescaped(cur));
    assert Rebase(p, Unescaped(cur), cur) == q;
  }

  lemma StepMovedOther(t0: Tree, t: Tree, root: Path, R: set<Path>, cur: Path, d: Path, q: Path)
    requires StepReady(t0, t, root, R, cur)
    requires d in R && q in t0 && d <= q
    ensures var m := MoveTree(t, cur, Unescaped(cur));
      Rebase(q, d, Unescaped(d)) in m && m[Rebase(q, d, Unescaped(d))] == t0[q]
  {
    var u := Unescaped(d);
    var p := Rebase(q, d, u);
    assert p in t && t[p] == t0[q];
    assert EscapedDir(t0, root, d) && d != cur;
    TargetBesideCur(t0, root, d, cur);
    PrefixesComparable(cur, u, p);
    PrefixesComparable(Unescaped(cur), u, p);
    TargetsApart(t0, root, cur, d);
    TargetsApart(t0, root, d, cur);
  }

  lemma StepMoved(t0: Tree, t: Tree, root: Path, R: set<Path>, cur: Path)
    requires StepReady(t0, t, root, R, cur)
    ensures MovedAlong(t0, MoveTree(t, cur, Unescaped(cur)), R + {cur})
  {
    var m := MoveTree(t, cur, Unescaped(cur));
    forall d, q | d in R + {cur} && q in t0 && d <= q
      ensures Rebase(q, d, Unescaped(d)) in m && m[Rebase(q, d, Unescaped(d))] == t0[q]
    {
      if d == cur {
        StepMovedCur(t0, t, root, R, cur, q);
      } else {
        StepMovedOther(t0, t, root, R, cur, d, q);
      }
    }
  }

  lemma StepNothingElse(t0: Tree, t: Tree, root: Path, R: set<Path>, cur: Path)
    requires StepReady(t0, t, root, R, cur)
    ensures NothingElse(t0, MoveTree(t, cur, Unescaped(cur)), R + {cur})
  {
    var u := Unescaped(cur);
    var m := MoveTree(t, cur, u);
    forall p | p in m
      ensures (p in t0 && NotUnder(R + {cur}, p))
        || exists d :: d in R + {cur} && Unescaped(d) <= p && Rebase(p, Unescaped(d), d) in t0
    {
      if u <= p && Rebase(p, u, cur) in t {
        StepNothingElseMoved(t0, t, root, R, cur, p);
      } else {
        assert p in t && !(cur <= p);
        StepNothingElseKept(t0, t, R, cur, p);
      }
    }
  }

  /** An entry under the new path came from under `cur`. */
  lemma StepNothingElseMoved(t0: Tree, t: Tree, root: Path, R: set<Path>, cur: Path, p: Path)
    requires StepReady(t0, t, root, R, cur)
    requires Unescaped(cur) <= p && Rebase(p, Unescaped(cur), cur) in t
    ensures Rebase(p, Unescaped(cur), cur) in t0
  {
    var u := Unescaped(cur);
    TargetShape(t0, root, cur);
    var q := Rebase(p, u, cur);
    forall d | d in R
      ensures !(Unescaped(d) <= q)
    {
      TargetBesideCur(t0, root, d, cur);
      PrefixesComparable(Unescaped(d), cur, q);
    }
  }

  /** An entry the move left where it was is accounted for as before. */
  lemma StepNothingElseKept(t0: Tree, t: Tree, R: set<Path>, cur: Path, p: Path)
    requires NothingElse(t0, t, R) && p in t && !(cur <= p)
    ensures (p in t0 && NotUnder(R + {cur}, p))
      || exists d :: d in R + {cur} && Unescaped(d) <= p && Rebase(p, Unescaped(d), d) in t0
  {
    if p in t0 && NotUnder(R, p) {
      assert NotUnder(R + {cur}, p);
    } else {
      var d :| d in R && Unescaped(d) <= p && Rebase(p, Unescaped(d), d) in t0;
      assert d in R + {cur};
    }
  }

  /** Renaming `cur` succeeds and extends the renamed state by `cur`. */
  lemma RenameStep(t0: Tree, t: Tree, root: Path, R: set<Path>, cur: Path)
    requires StepReady(t0, t, root, R, cur)
    ensures RenameSpec(t, cur, Unescaped(cur)) == Ok(MoveTree(t, cur, Unescaped(cur)))
    ensures RenamedState(t0, MoveTree(t, cur, Unescaped(cur)), R + {cur})
  {
    var u := Unescaped(cur);
    TargetShape(t0, root, cur);
    assert cur in t && t[cur] == Dir;
    forall d | d in R
      ensures !(Unescaped(d) <= u)
    {
      TargetsApart(t0, root, d, cur);
    }
    assert u !in t;
    var parent := Dirname(cur);
    assert IsDir(t0, parent);
    assert NotUnder(R, parent);
    StepKept(t0, t, root, R, cur);
    StepMoved(t0, t, root, R, cur);
    StepNothingElse(t0, t, root, R, cur);
  }

  // ---------------------------------------------------------------------
  // The walk when nothing collides.

  /** What the walk knows, beyond the frontier, when nothing collides. */
  ghost predicate Progress(t0: Tree, t: Tree, root: Path, visited: set<Path>) {
    RenamedState(t0, t, RenamedSet(visited, root)) && Live(visited, RenamedSet(visited, root))
  }

  /** A folder the walk lists successfully is an original one, under no
      renamed folder and above no visited one, with its original children. */
  lemma LiveChildren(t0: Tree, t: Tree, root: Path, rest: seq<Path>, cur: Path, visited: set<Path>)
    requires WellFormed(t0) && Unambiguous(t0, root)
    requires Frontier(t0, root, rest + [cur], visited) && Progress(t0, t, root, visited)
    requires IsDir(t, cur)
    ensures IsDir(t0, cur) && NotUnder(RenamedSet(visited, root), cur)
    ensures forall v :: v in visited ==> !(cur <= v)
    ensures forall n :: cur + [n] in t <==> cur + [n] in t0
    ensures forall n :: cur + [n] in t ==> t[cur + [n]] == t0[cur + [n]]
  {
    var R := RenamedSet(visited, root);
    FrontierTop(t0, root, rest, cur, visited);
    assert IsDir(t0, cur);
    forall d | d in R
      ensures EscapedDir(t0, root, d) && !(Unescaped(d) <= cur)
    {
      TargetOutside(t0, root, d, cur);
    }
    assert cur in t;
    forall n
      ensures cur + [n] in t <==> cur + [n] in t0
      ensures cur + [n] in t ==> t[cur + [n]] == t0[cur + [n]]
    {
      var c := cur + [n];
      forall d | d in R
        ensures !(d <= c) && !(Unescaped(d) <= c)
      {
        PrefixOfChild(d, cur, n);
        PrefixOfChild(Unescaped(d), cur, n);
        TargetShape(t0, root, d);
        assert Dirname(d) <= d;
      }
      assert NotUnder(R, c);
    }
  }

  /** A folder the walk cannot list is a stale path under a renamed folder,
      which therefore had a subdirectory. */
  lemma ListingFailure(t0: Tree, t: Tree, root: Path, rest: seq<Path>, cur: Path, visited: set<Path>)
    requires WellFormed(t0) && Unambiguous(t0, root)
    requires Frontier(t0, root, rest + [cur], visited) && Progress(t0, t, root, visited)
    requires !IsDir(t, cur)
    ensures !NoEscapedParent(t0, root)
  {
    var R := RenamedSet(visited, root);
    FrontierTop(t0, root, rest, cur, visited);
    assert IsDir(t0, cur);
    assert !NotUnder(R, cur);
    var d :| d in R && d <= cur;
    assert d != cur;
    EscapedAbove(t0, root, d, cur);
  }

  /** An escaped folder with a directory anywhere below it has a
      subdirectory. */
  lemma EscapedAbove(t0: Tree, root: Path, d: Path, q: Path)
    requires WellFormed(t0) && EscapedDir(t0, root, d) && d < q && IsDir(t0, q)
    ensures !NoEscapedParent(t0, root)
  {
    var c := q[..|d| + 1];
    assert c == d + [q[|d|]];
    if c != q {
      AncestorIsDir(t0, c, q);
    }
    assert IsDir(t0, d + [q[|d|]]);
  }

  /** Visiting `cur` keeps the walk's progress facts (before any rename). */
  lemma VisitStep(t0: Tree, t: Tree, root: Path, rest: seq<Path>, cur: Path, visited: set<Path>)
    requires WellFormed(t0) && WellFormed(t) && Unambiguous(t0, root)
    requires Frontier(t0, root, rest + [cur], visited) && Progress(t0, t, root, visited)
    requires IsDir(t, cur)
    ensures var R := RenamedSet(visited, root);
      RenamedSet(visited + {cur}, root)
        == if Renames(root, cur) then R + {cur} else R
    ensures Live(visited + {cur}, RenamedSet(visited + {cur}, root))
    ensures Renames(root, cur) ==>
      StepReady(t0, t, root, RenamedSet(visited, root), cur)
  {
    var R := RenamedSet(visited, root);
    LiveChildren(t0, t, root, rest, cur, visited);
    FrontierTop(t0, root, rest, cur, visited);
    var R' := if Renames(root, cur) then R + {cur} else R;
    assert RenamedSet(visited + {cur}, root) == R';
    forall v, d | v in visited + {cur} && d in R'
      ensures !(d < v)
    {
      if d == cur && v != cur {
        assert !(cur <= v);
      }
    }
    forall d | d in R
      ensures EscapedDir(t0, root, d)
    {
    }
  }

  /** When the queue runs empty, every escaped folder was renamed and none
      had a subdirectory. */
  lemma WalkEnd(t0: Tree, root: Path, visited: set<Path>)
    requires Frontier(t0, root, [], visited)
    requires Live(visited, RenamedSet(visited, root))
    ensures RenamedSet(visited, root) == EscapedBelow(t0, root)
    ensures NoEscapedParent(t0, root)
  {
    FrontierDone(t0, root, visited);
    forall d, n | EscapedDir(t0, root, d)
      ensures !IsDir(t0, d + [n])
    {
      assert d in visited && d in RenamedSet(visited, root);
      assert root <= d + [n] && d < d + [n];
    }
  }

  /** A rename keeps everything outside the root's strict subtree. */
  lemma RenameFrame(t: Tree, root: Path, cur: Path)
    requires WellFormed(t) && root < cur && IsEscaped(Basename(cur))
    requires RenameSpec(t, cur, Unescaped(cur)).Ok?
    ensures SameOutside(t, RenameSpec(t, cur, Unescaped(cur)).value, root)
  {
    var dst := Unescaped(cur);
    RenameWellFormed(t, cur, dst);
    if cur != dst {
      RenameIsMove(t, cur, dst);
      // a lone escape character would rename onto the parent, above `cur`
      assert |Basename(cur)| > 1 && Dirname(dst) == Dirname(cur);
      assert root < dst;
    }
    var u := RenameSpec(t, cur, dst).value;
    forall q | !(root < q)
      ensures (q in t <==> q in u) && (q in t ==> t[q] == u[q])
    {
      assert !(cur <= q) && !(dst <= q);
    }
  }

  // ---------------------------------------------------------------------

  /** The walk's invariant over the original tree `t0` and the current tree
      `t`; `names`, `depth` and `universe` describe the finite universe its
      paths stay in. */
  ghost predicate RenameInvariant(t0: Tree, t: Tree, root: Path, queue: seq<Path>, visited: set<Path>,
                                  names: set<Name>, depth: nat, universe: set<Path>) {
    && WellFormed(t0) && WellFormed(t)
    && (forall n :: n in names && IsEscaped(n) ==> StripEscape(n) in names)
    && universe == AllPaths(names, depth) + {root}
    && SameOutside(t0, t, root)
    && (visited == {} ==> t == t0)
    && (visited != {} ==> IsDir(t0, root))
    && Bounded(t, names, depth)
    && QueueShape(root, queue, visited, universe)
    && (Unambiguous(t0, root) ==> Frontier(t0, root, queue, visited) && Progress(t0, t, root, visited))
  }

  lemma InvariantInit(t0: Tree, root: Path)
    requires WellFormed(t0)
    ensures RenameInvariant(t0, t0, root, [root], {}, Segments(t0), MaxLength(t0.Keys),
                            AllPaths(Segments(t0), MaxLength(t0.Keys)) + {root})
  {
    UniverseInit(t0);
    FrontierInit(t0, root);
    assert RenamedSet({}, root) == {};
  }

  /** Visiting a folder that is not renamed keeps the invariant. */
  lemma VisitKeepsInvariant(t0: Tree, t: Tree, root: Path, rest: seq<Path>, cur: Path, visited: set<Path>,
                            names: set<Name>, depth: nat, universe: set<Path>, items: seq<Name>)
    requires RenameInvariant(t0, t, root, rest + [cur], visited, names, depth, universe)
    requires IsDir(t, cur) && !Renames(root, cur)
    requires IsListing(items, Children(t, cur))
    ensures RenameInvariant(t0, t, root, ListedDirs(t, cur, items) + rest, visited + {cur}, names, depth, universe)
  {
    var next := ListedDirs(t, cur, items) + rest;
    QueueTop(root, rest, cur, visited, universe);
    QueuedChildren(t, cur, items, rest);
    BoundedInAll(t, names, depth);
    QueueStep(t, root, rest, cur, visited, universe, next);
    if Unambiguous(t0, root) {
      VisitStep(t0, t, root, rest, cur, visited);
      ChildrenAgree(t0, t, root, rest, cur, visited, next);
    }
  }

  /** Visiting a folder that is renamed, and renaming it, keeps the
      invariant. */
  lemma RenameKeepsInvariant(t0: Tree, t: Tree, root: Path, rest: seq<Path>, cur: Path, visited: set<Path>,
                             names: set<Name>, depth: nat, universe: set<Path>, items: seq<Name>)
    requires RenameInvariant(t0, t, root, rest + [cur], visited, names, depth, universe)
    requires IsDir(t, cur) && Renames(root, cur)
    requires IsListing(items, Children(t, cur))
    requires RenameSpec(t, cur, Unescaped(cur)).Ok?
    ensures RenameInvariant(t0, RenameSpec(t, cur, Unescaped(cur)).value, root, ListedDirs(t, cur, items) + rest,
                            visited + {cur}, names, depth, universe)
  {
    var next := ListedDirs(t, cur, items) + rest;
    QueueTop(root, rest, cur, visited, universe);
    QueuedChildren(t, cur, items, rest);
    BoundedInAll(t, names, depth);
    QueueStep(t, root, rest, cur, visited, universe, next);
    RenameStaysBounded(t, names, depth, cur);
    RenameFrame(t, root, cur);
    RenameWellFormed(t, cur, Unescaped(cur));
    if Unambiguous(t0, root) {
      VisitStep(t0, t, root, rest, cur, visited);
      ChildrenAgree(t0, t, root, rest, cur, visited, next);
      RenameStep(t0, t, root, RenamedSet(visited, root), cur);
    }
  }

  /** When nothing collides, renaming a visited escaped folder succeeds. */
  lemma RenameSucceeds(t0: Tree, t: Tree, root: Path, rest: seq<Path>, cur: Path, visited: set<Path>,
                       names: set<Name>, depth: nat, universe: set<Path>)
    requires RenameInvariant(t0, t, root, rest + [cur], visited, names, depth, universe)
    requires IsDir(t, cur) && Renames(root, cur)
    ensures Unambiguous(t0, root) ==> RenameSpec(t, cur, Unescaped(cur)).Ok?
  {
    if Unambiguous(t0, root) {
      VisitStep(t0, t, root, rest, cur, visited);
      RenameStep(t0, t, root, RenamedSet(visited, root), cur);
    }
  }

  /** The subdirectories the walk queues for an original folder are its
      original subdirectories, so the frontier over the original tree moves
      on. */
  lemma ChildrenAgree(t0: Tree, t: Tree, root: Path, rest: seq<Path>, cur: Path, visited: set<Path>, next: seq<Path>)
    requires WellFormed(t0) && Unambiguous(t0, root)
    requires Frontier(t0, root, rest + [cur], visited) && Progress(t0, t, root, visited)
    requires IsDir(t, cur)
    requires Distinct(next)
    requires forall x :: x in next <==> x in rest || (|x| == |cur| + 1 && cur <= x && IsDir(t, x))
    ensures Frontier(t0, root, next, visited + {cur})
  {
    LiveChildren(t0, t, root, rest, cur, visited);
    forall x
      ensures x in next <==> x in rest || (|x| == |cur| + 1 && cur <= x && IsDir(t0, x))
    {
      if |x| == |cur| + 1 && cur <= x {
        assert x == cur + [x[|cur|]];
      }
    }
    FrontierStep(t0, root, rest, cur, visited, next);
  }

  /** The directories among the listed `names` under `cur`, as the loop
      leaves them at the front of the queue: each one found goes before those
      found earlier, so they end up in reverse listing order. */
  ghost function ListedDirs(t: Tree, cur: Path, names: seq<Name>): seq<Path>
    decreases |names|
  {
    if names == [] then []
    else
      var last := names[|names| - 1];
      (if IsDir(t, cur + [last]) then [cur + [last]] else []) + ListedDirs(t, cur, names[..|names| - 1])
  }

  /** Listing one more name adds its directory, if it is one, in front. */
  lemma ListedDirsStep(t: Tree, cur: Path, items: seq<Name>, i: nat)
    requires i < |items|
    ensures ListedDirs(t, cur, items[..i + 1]) ==
      (if IsDir(t, cur + [items[i]]) then [cur + [items[i]]] else []) + ListedDirs(t, cur, items[..i])
  {
    assert items[..i + 1][..i] == items[..i];
  }

  lemma ConsAssociates<T>(x: T, a: seq<T>, b: seq<T>)
    ensures [x] + (a + b) == ([x] + a) + b
  {
  }

  /** `ListedDirs` holds exactly the directory children named in `names`,
      each once when the names are distinct. */
  lemma {:induction false} ListedDirsMembers(t: Tree, cur: Path, names: seq<Name>)
    ensures forall x :: x in ListedDirs(t, cur, names) ==> |x| == |cur| + 1 && cur <= x
    ensures forall n :: cur + [n] in ListedDirs(t, cur, names) <==> n in names && IsDir(t, cur + [n])
    ensures Distinct(names) ==> Distinct(ListedDirs(t, cur, names))
    decreases |names|
  {
    if names != [] {
      var init := names[..|names| - 1];
      var last := names[|names| - 1];
      ListedDirsMembers(t, cur, init);
      assert names == init + [last];
      forall n
        ensures cur + [n] == cur + [last] <==> n == last
      {
        assert (cur + [n])[|cur|] == n;
      }
      if Distinct(names) {
        assert Distinct(init) by {
          forall i, j | 0 <= i < j < |init|
            ensures init[i] != init[j]
          {
            assert init[i] == names[i] && init[j] == names[j];
          }
        }
        assert last !in init by {
          forall i | 0 <= i < |init|
            ensures init[i] != last
          {
            assert init[i] == names[i];
          }
        }
        if IsDir(t, cur + [last]) {
          DistinctCons(cur + [last], ListedDirs(t, cur, init));
        }
      }
    }
  }

  /** The `for (const item of contents)` loop: each listed item that is a
      directory goes to the front of the queue (`unshift`), so the folders
      queued before stay at the end, where the walk takes the next one from. */
  method QueueSubdirectories(fs: FileSystem, cur: Path, items: seq<Name>, queue: seq<Path>)
    returns (next: seq<Path>)
    requires fs.Valid() && IsListing(items, Children(fs.entries, cur))
    ensures next == ListedDirs(fs.entries, cur, items) + queue
  {
    next := queue;
    for i := 0 to |items|
      invariant next == ListedDirs(fs.entries, cur, items[..i]) + queue
    {
      assert items[i] in Children(fs.entries, cur);
      ListedName(fs.entries, cur, items[i]);
      ListedDirsStep(fs.entries, cur, items, i);
      var child := Join(cur, items[i]);
      ghost var before := ListedDirs(fs.entries, cur, items[..i]);
      if fs.IsDirectory(child) {
        ConsAssociates(child, before, queue);
        next := [child] + next;
      } else {
        assert [] + before == before;
      }
    }
    assert items[..|items|] == items;
  }

  /** The queue after listing `cur`: distinct, and holding exactly the old
      queue and the directories under `cur`. */
  lemma QueuedChildren(t: Tree, cur: Path, items: seq<Name>, queue: seq<Path>)
    requires IsListing(items, Children(t, cur))
    requires Distinct(queue) && forall n :: cur + [n] !in queue
    ensures Distinct(ListedDirs(t, cur, items) + queue)
    ensures forall x :: x in ListedDirs(t, cur, items) + queue <==>
      x in queue || (|x| == |cur| + 1 && cur <= x && IsDir(t, x))
  {
    var added := ListedDirs(t, cur, items);
    ListedDirsMembers(t, cur, items);
    forall x | x in added
      ensures x !in queue
    {
      assert x == cur + [x[|cur|]];
    }
    DistinctConcat(added, queue);
    ChildPaths(t, cur, added, queue);
  }

  /** A sequence holding exactly the directories named by `cur + [n]`, put
      before `queue`, holds exactly `queue` and the directories one level
      under `cur`. */
  lemma ChildPaths(t: Tree, cur: Path, added: seq<Path>, queue: seq<Path>)
    requires forall x :: x in added ==> |x| == |cur| + 1 && cur <= x
    requires forall n :: cur + [n] in added <==> IsDir(t, cur + [n])
    ensures forall x :: x in added + queue <==> x in queue || (|x| == |cur| + 1 && cur <= x && IsDir(t, x))
  {
    forall x
      ensures x in added + queue <==> x in queue || (|x| == |cur| + 1 && cur <= x && IsDir(t, x))
    {
      if |x| == |cur| + 1 && cur <= x {
        assert x == cur + [x[|cur|]];
      }
    }
  }

  /** One pass of the walk's loop body on the folder `cur` taken off the
      queue: list it (throwing when that fails), queue its subdirectories,
      and rename it when its name is escaped. On success the invariant holds
      with `cur` visited, and the queue is `added`, folders one level below
      `cur`, followed by the rest. On failure the tree is the one before the
      failed step; when nothing collides, it still holds exactly the renames
      done so far, and the failure means some escaped folder has a
      subdirectory. */
  method VisitFolder(fs: FileSystem, root: Path, rest: seq<Path>, cur: Path, ghost t0: Tree,
                     ghost visited: set<Path>, ghost names: set<Name>, ghost depth: nat,
                     ghost universe: set<Path>)
    returns (r: Outcome, next: seq<Path>, ghost added: seq<Path>)
    requires fs.Valid()
    requires RenameInvariant(t0, fs.entries, root, rest + [cur], visited, names, depth, universe)
    modifies fs
    ensures fs.Valid()
    ensures r == Pass ==> RenameInvariant(t0, fs.entries, root, next, visited + {cur}, names, depth, universe)
    ensures r == Pass ==> next == added + rest && forall x :: x in added ==> |x| == |cur| + 1
    ensures r.Fail? ==> SameOutside(t0, fs.entries, root) && (visited == {} ==> fs.entries == t0)
    ensures r.Fail? && Unambiguous(t0, root) ==> !NoEscapedParent(t0, root)
    ensures r.Fail? && Unambiguous(t0, root) ==> RenamedState(t0, fs.entries, RenamedSet(visited, root))
  {
    QueueTop(root, rest, cur, visited, universe);
    var listing := fs.Readdir(cur);
    if listing.Err? {
      if Unambiguous(t0, root) {
        ListingFailure(t0, fs.entries, root, rest, cur, visited);
      }
      return Fail(listing.error), rest, [];
    }
    var items := listing.value;
    next := QueueSubdirectories(fs, cur, items, rest);
    added := ListedDirs(fs.entries, cur, items);
    ListedDirsMembers(fs.entries, cur, items);
    if Renames(root, cur) {
      var target := Join(Dirname(cur), StripEscape(Basename(cur)));
      RenameSucceeds(t0, fs.entries, root, rest, cur, visited, names, depth, universe);
      ghost var t := fs.entries;
      r := fs.Rename(cur, target);
      if r.Pass? {
        RenameKeepsInvariant(t0, t, root, rest, cur, visited, names, depth, universe, items);
      }
    } else {
      VisitKeepsInvariant(t0, fs.entries, root, rest, cur, visited, names, depth, universe, items);
      r := Pass;
    }
  }

  /** `renameFoldersInDepthFirstOrder(folderPath)`: throws (Fail) when a
      listing or a rename fails, leaving the renames done so far. Outside the
      root's strict subtree nothing changes; a root that is not a folder fails
      at once. The folders are taken in breadth-first order: `order`, the
      folders the walk got through, never goes back to a shallower one. When
      no renaming collides with an existing entry, the escaped folders among
      them are exactly the ones renamed, each moved whole, so an aborted walk
      leaves whole folders renamed and nothing else changed; the walk
      succeeds exactly when no escaped folder has a subdirectory, and then it
      has gone through every folder and renamed every escaped one. */
  method RenameFoldersInDepthFirstOrder(fs: FileSystem, root: Path) returns (r: Outcome, ghost order: seq<Path>)
    requires fs.Valid()
    modifies fs
    ensures fs.Valid()
    ensures SameOutside(old(fs.entries), fs.entries, root)
    ensures !IsDir(old(fs.entries), root) ==> r.Fail? && fs.entries == old(fs.entries)
    ensures forall i, j :: 0 <= i < j < |order| ==> |order[i]| <= |order[j]|
    ensures forall i, j :: 0 <= i < |order| && 0 <= j < |order| && order[i] < order[j] ==> i < j
    ensures Distinct(order) && forall p :: p in order ==> root <= p
    ensures Unambiguous(old(fs.entries), root) ==>
      RenamedState(old(fs.entries), fs.entries, RenamedAlong(order, root))
    ensures Unambiguous(old(fs.entries), root) ==>
      (r == Pass <==> NoEscapedParent(old(fs.entries), root))
    ensures Unambiguous(old(fs.entries), root) && r == Pass ==>
      (forall p :: p in order <==> root <= p && IsDir(old(fs.entries), p))
    ensures Unambiguous(old(fs.entries), root) && r == Pass ==>
      RenamedState(old(fs.entries), fs.entries, EscapedBelow(old(fs.entries), root))
  {
    ghost var t0 := fs.entries;
    ghost var names := Segments(t0);
    ghost var depth := MaxLength(t0.Keys);
    ghost var universe := AllPaths(names, depth) + {root};
    InvariantInit(t0, root);
    ghost var visited, level;
    r, order, visited, level := DrainQueue(fs, root, t0, names, depth, universe);
    RenamedInOrder(root, order, visited, level);
    BreadthFirstSorted(order);
    if r == Pass && Unambiguous(t0, root) {
      WalkComplete(t0, fs.entries, root, order, visited, level);
    }
  }

  /** The `while` loop of `renameFoldersInDepthFirstOrder`, from the queue
      holding the root alone until it runs empty or a step throws. It ends
      with the walk's invariant when the queue runs empty; when a step
      throws, with the frame and, when nothing collides, with the folders
      visited so far renamed and some escaped folder having a
      subdirectory. */
  method DrainQueue(fs: FileSystem, root: Path, ghost t0: Tree, ghost names: set<Name>,
                    ghost depth: nat, ghost universe: set<Path>)
    returns (r: Outcome, ghost order: seq<Path>, ghost visited: set<Path>, ghost level: nat)
    requires fs.Valid()
    requires RenameInvariant(t0, fs.entries, root, [root], {}, names, depth, universe)
    modifies fs
    ensures fs.Valid()
    ensures VisitOrder(root, order, visited, level)
    ensures SameOutside(t0, fs.entries, root)
    ensures visited == {} ==> fs.entries == t0
    ensures visited != {} ==> IsDir(t0, root)
    ensures r == Pass ==> RenameInvariant(t0, fs.entries, root, [], visited, names, depth, universe)
    ensures r.Fail? && Unambiguous(t0, root) ==> !NoEscapedParent(t0, root)
    ensures r.Fail? && Unambiguous(t0, root) ==> RenamedState(t0, fs.entries, RenamedSet(visited, root))
  {
    var queue := [root];
    ghost var k: nat := 0;
    visited := {};
    level := |root|;
    order := [];
    while queue != []
      invariant fs.Valid()
      invariant RenameInvariant(t0, fs.entries, root, queue, visited, names, depth, universe)
      invariant WalkOrder(root, queue, k, order, visited, level)
      decreases universe - visited
    {
      var cur := queue[|queue| - 1];
      SplitLast(queue);
      var rest := queue[..|queue| - 1];
      QueueTop(root, rest, cur, visited, universe);
      var res;
      ghost var added;
      res, queue, added := VisitFolder(fs, root, rest, cur, t0, visited, names, depth, universe);
      if res.Fail? {
        return res, order, visited, level;
      }
      WalkOrderStep(root, rest, cur, added, k, order, visited, level);
      k := if k <= |rest| then |added| + k else |added|;
      order := order + [cur];
      level := |cur|;
      visited := visited + {cur};
    }
    return Pass, order, visited, level;
  }

  /** When the queue runs empty on a tree where nothing collides, the walk
      has gone through exactly the folders at or under the root, and every
      escaped one among them has been renamed. */
  lemma WalkComplete(t0: Tree, t: Tree, root: Path, order: seq<Path>, visited: set<Path>, level: nat)
    requires Frontier(t0, root, [], visited) && Progress(t0, t, root, visited)
    requires VisitOrder(root, order, visited, level)
    ensures NoEscapedParent(t0, root)
    ensures forall p :: p in order <==> root <= p && IsDir(t0, p)
    ensures RenamedState(t0, t, RenamedAlong(order, root))
    ensures RenamedState(t0, t, EscapedBelow(t0, root))
  {
    WalkEnd(t0, root, visited);
    FrontierDone(t0, root, visited);
    RenamedInOrder(root, order, visited, level);
  }

  /** The walk strips one escape character per pass: a folder named with two
      escape characters still has one after a successful pass, so running
      the walk again renames it again. */
  lemma NotIdempotent(t0: Tree, t: Tree, root: Path, d: Path)
    requires RenamedState(t0, t, EscapedBelow(t0, root))
    requires EscapedDir(t0, root, d) && |Basename(d)| > 1 && Basename(d)[1] == EscapeChar
    ensures EscapedDir(t, root, Unescaped(d))
  {
    assert d in EscapedBelow(t0, root);
    assert Rebase(d, d, Unescaped(d)) == Unescaped(d);
  }
}
