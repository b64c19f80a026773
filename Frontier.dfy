/**
 * The bookkeeping shared by the folder walks of `src/zip/zipAnalyzer.js`
 * (`findPlatformModule`, `findUnitTest` and `renameFoldersInDepthFirstOrder`):
 * a walk keeps a list of folders still to visit, takes one off the end, and
 * adds that folder's subdirectories. Whichever end the subdirectories go on,
 * the walk visits each directory at or under its start at most once, and when
 * the list runs empty it has visited all of them.
 */
module Frontiers {
  import opened Paths
  import opened FileTree

  /** `d` is a directory at or under `start` that the walk has not visited. */
  ghost predicate Pending(t: Tree, start: Path, visited: set<Path>, d: Path) {
    start <= d && IsDir(t, d) && d !in visited
  }

  /** The walk's invariant: the pending list holds distinct, unvisited
      folders at or under `start`, each with all its ancestors from `start`
      visited; visited folders are directories, closed under ancestors down to
      `start`; every unvisited directory under `start` lies under a pending
      folder. */
  ghost predicate Frontier(t: Tree, start: Path, pending: seq<Path>, visited: set<Path>) {
    && (visited == {} ==> pending == [start])
    && (visited != {} ==> IsDir(t, start) && start in visited)
    && Distinct(pending)
    && (forall x :: x in pending ==> start <= x && x !in visited && (visited != {} ==> IsDir(t, x)))
    && (forall v :: v in visited ==> start <= v && IsDir(t, v))
    && (forall x, k :: x in pending && |start| <= k < |x| ==> x[..k] in visited)
    && (forall v, k :: v in visited && |start| <= k < |v| ==> v[..k] in visited)
    && (forall d :: Pending(t, start, visited, d) ==> exists x :: x in pending && x <= d)
  }

  /** The directories at or under `start`. */
  ghost function DirsBelow(t: Tree, start: Path): set<Path> {
    set d | d in t && start <= d && t[d] == Dir
  }

  /** A walk starts with its start folder alone. */
  lemma FrontierInit(t: Tree, start: Path)
    ensures Frontier(t, start, [start], {})
  {
    forall d | Pending(t, start, {}, d)
      ensures exists x :: x in [start] && x <= d
    {
      assert start in [start];
    }
  }

  /** The folder taken off the end is a new one under the start, and none of
      its children is pending yet. */
  lemma FrontierTop(t: Tree, start: Path, rest: seq<Path>, cur: Path, visited: set<Path>)
    requires Frontier(t, start, rest + [cur], visited)
    ensures start <= cur && cur !in visited && cur !in rest
    ensures cur in DirsBelow(t, start) + {start}
    ensures visited <= DirsBelow(t, start) + {start}
    ensures forall k :: |start| <= k < |cur| ==> cur[..k] in visited
    ensures forall n :: cur + [n] !in rest
    ensures forall v :: v in visited ==> !(cur <= v)
    ensures Distinct(rest)
  {
    var pending := rest + [cur];
    assert cur in pending;
    assert pending[|rest|] == cur;
    forall i | 0 <= i < |rest|
      ensures rest[i] != cur
    {
      assert pending[i] == rest[i];
    }
    forall i, j | 0 <= i < j < |rest|
      ensures rest[i] != rest[j]
    {
      assert pending[i] == rest[i] && pending[j] == rest[j];
    }
    forall n
      ensures cur + [n] !in rest
    {
      var c := cur + [n];
      assert c[..|cur|] == cur;
    }
    forall v | v in visited
      ensures !(cur <= v)
    {
      assert start <= cur && cur !in visited;
      if |cur| < |v| {
        var p := v[..|cur|];
        assert p in visited;
        assert cur <= v ==> p == cur;
      } else {
        assert cur <= v ==> cur == v;
      }
    }
  }

  /** A folder the walk cannot list can only be the start folder, taken
      first. */
  lemma FrontierUnlisted(t: Tree, start: Path, rest: seq<Path>, cur: Path, visited: set<Path>)
    requires Frontier(t, start, rest + [cur], visited) && !IsDir(t, cur)
    ensures cur == start && visited == {} && !IsDir(t, start)
  {
    assert cur in rest + [cur];
  }

  /** Visiting the folder at the end and adding its subdirectories, in any
      order, keeps the invariant. */
  lemma FrontierStep(t: Tree, start: Path, rest: seq<Path>, cur: Path, visited: set<Path>, next: seq<Path>)
    requires WellFormed(t)
    requires Frontier(t, start, rest + [cur], visited) && IsDir(t, cur)
    requires Distinct(next)
    requires forall x :: x in next <==> x in rest || (|x| == |cur| + 1 && cur <= x && IsDir(t, x))
    ensures Frontier(t, start, next, visited + {cur})
  {
    var visited' := visited + {cur};
    FrontierTop(t, start, rest, cur, visited);
    StepQueued(t, start, rest, cur, visited, next);
    StepCovers(t, start, rest, cur, visited, next);
    forall v, k | v in visited' && |start| <= k < |v|
      ensures v[..k] in visited'
    {
    }
  }

  /** The folders pending after the step are new folders under the start,
      with every ancestor down from the start visited. */
  lemma StepQueued(t: Tree, start: Path, rest: seq<Path>, cur: Path, visited: set<Path>, next: seq<Path>)
    requires Frontier(t, start, rest + [cur], visited) && IsDir(t, cur)
    requires forall x :: x in next <==> x in rest || (|x| == |cur| + 1 && cur <= x && IsDir(t, x))
    ensures forall x :: x in next ==> start <= x && x !in visited + {cur} && IsDir(t, x)
    ensures forall x, k :: x in next && |start| <= k < |x| ==> x[..k] in visited + {cur}
  {
    var pending := rest + [cur];
    var visited' := visited + {cur};
    FrontierTop(t, start, rest, cur, visited);
    forall x | x in next
      ensures start <= x && x !in visited' && IsDir(t, x)
      ensures forall k :: |start| <= k < |x| ==> x[..k] in visited'
    {
      if x in rest {
        assert x in pending;
      } else {
        assert x[..|cur|] == cur;
        forall k | |start| <= k < |x|
          ensures x[..k] in visited'
        {
          if k < |cur| {
            assert x[..k] == cur[..k];
          }
        }
      }
    }
  }

  /** Every directory still unvisited after the step lies under a folder
      pending after it. */
  lemma StepCovers(t: Tree, start: Path, rest: seq<Path>, cur: Path, visited: set<Path>, next: seq<Path>)
    requires WellFormed(t)
    requires Frontier(t, start, rest + [cur], visited)
    requires forall x :: x in next <==> x in rest || (|x| == |cur| + 1 && cur <= x && IsDir(t, x))
    ensures forall d :: Pending(t, start, visited + {cur}, d) ==> exists x :: x in next && x <= d
  {
    var pending := rest + [cur];
    forall d | Pending(t, start, visited + {cur}, d)
      ensures exists x :: x in next && x <= d
    {
      assert Pending(t, start, visited, d);
      var y :| y in pending && y <= d;
      if y == cur {
        assert d != cur;
        var c := d[..|cur| + 1];
        assert c == cur + [d[|cur|]];
        if c != d {
          AncestorIsDir(t, c, d);
        }
        assert c in next;
      } else {
        assert y in rest;
      }
    }
  }

  /** When nothing is pending, every directory under the start was visited. */
  lemma FrontierDone(t: Tree, start: Path, visited: set<Path>)
    requires Frontier(t, start, [], visited)
    ensures IsDir(t, start)
    ensures forall d :: start <= d && IsDir(t, d) ==> d in visited
  {
    forall d | start <= d && IsDir(t, d)
      ensures d in visited
    {
      assert !Pending(t, start, visited, d);
    }
  }
}
