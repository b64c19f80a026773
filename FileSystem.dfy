/**
 * The filesystem as the engine sees it: one mutable object whose state is the
 * map of entries, with the synchronous primitives of `fs-extra` as methods.
 * The order in which a directory is listed is not fixed: `Readdir` returns
 * some listing of the children, each exactly once.
 */
module FileSystems {
  import opened Paths
  import opened FileTree

  class FileSystem {
    var entries: Tree

    ghost predicate Valid()
      reads this
    {
      WellFormed(entries)
    }

    constructor (t: Tree)
      requires WellFormed(t)
      ensures Valid() && entries == t
    {
      entries := t;
    }

    /** `existsSync(p)`: a non-root path exists exactly when its parent
        lists its name, and then that parent is a directory. */
    function Exists(p: Path): (b: bool)
      reads this
      ensures p != [] ==> (b <==> Basename(p) in Children(entries, Dirname(p)))
      ensures Valid() && b && p != [] ==> IsDir(entries, Dirname(p))
      ensures Valid() && p == [] ==> b
    {
      assert p != [] ==> Dirname(p) + [Basename(p)] == p;
      p in entries
    }

    /** `statSync(p).isDirectory()` (and `lstatSync`: there are no links) on
        an entry that exists; an entry that is not a directory has nothing
        under it. */
    function IsDirectory(p: Path): (b: bool)
      reads this
      requires Exists(p)
      ensures b <==> IsDir(entries, p)
      ensures Valid() && !b ==> Children(entries, p) == {}
    {
      assert forall n :: Dirname(p + [n]) == p;
      entries[p] == Dir
    }

    /** `readdirSync(p)`: fails unless `p` is a directory, and otherwise lists
        each child name once, in an order the filesystem chooses. */
    method Readdir(p: Path) returns (r: Result<seq<Name>>)
      ensures r.Ok? <==> IsDir(entries, p)
      ensures r.Ok? ==> IsListing(r.value, Children(entries, p))
      ensures r.Err? ==> r.error == if p in entries then NotADirectory(p) else NoSuchEntry(p)
    {
      if p !in entries {
        return Err(NoSuchEntry(p));
      }
      if entries[p] != Dir {
        return Err(NotADirectory(p));
      }
      var rest := Children(entries, p);
      var names: seq<Name> := [];
      while rest != {}
        invariant Distinct(names)
        invariant forall n :: n in Children(entries, p) <==> n in names || n in rest
        invariant forall n :: n in names ==> n !in rest
        decreases rest
      {
        var n :| n in rest;
        names := names + [n];
        rest := rest - {n};
      }
      return Ok(names);
    }

    /** `renameSync(src, dst)`: on success the tree is the renamed one, on
        failure it is unchanged and the error is rename(2)'s. */
    method Rename(src: Path, dst: Path) returns (r: Outcome)
      requires Valid()
      modifies this
      ensures Valid()
      ensures RenameSpec(old(entries), src, dst).Ok? ==>
        r == Pass && entries == RenameSpec(old(entries), src, dst).value
      ensures RenameSpec(old(entries), src, dst).Err? ==>
        r == Fail(RenameSpec(old(entries), src, dst).error) && entries == old(entries)
    {
      var res := RenameSpec(entries, src, dst);
      if res.Ok? {
        RenameWellFormed(entries, src, dst);
        entries := res.value;
        r := Pass;
      } else {
        r := Fail(res.error);
      }
    }

    /** `removeSync(p)`: removes `p` and everything under it; a missing `p`
        is not an error. */
    method Remove(p: Path)
      requires Valid() && p != []
      modifies this
      ensures Valid()
      ensures entries == RemoveTree(old(entries), p)
    {
      RemoveWellFormed(entries, p);
      entries := RemoveTree(entries, p);
    }
  }
}
