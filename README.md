# Archive normalisation of te-extractor, modelled in Dafny

te-extractor unpacks a type-extension archive into a temporary folder and then
normalises what it found (`src/zip/zipAnalyzer.js`):

- **Locators.** `findPlatformModule` and `findUnitTest` walk the folders under
  a start folder with an explicit stack. They look for an *anchor*: a
  `PlatformModule.xml` entry, or any entry whose name ends in `.spec.js`. The
  folder tests `isFolderPlatformModule` and `isFolderUnitTest` decide whether a
  folder holds one.
- **Normalisers.** `getCustomerAndNormalizePlatformModule` and
  `getCustomerAndNormalizeUnitTest` locate the anchor and snapshot the root's
  listing. They move every child of the anchor's folder up into the root
  (`moveFolderContents`) and guess a customer name from the folder above. They
  then delete the snapshotted children (`deleteAllFilesAndFolders`).
- **Renamer.** `renameFoldersInDepthFirstOrder` strips one leading `$` from
  every folder below the root whose name starts with one.

## How the filesystem is modelled

- The filesystem is one mutable object: a `FileSystem` class whose `entries`
  field maps full paths to `File` or `Dir`.
- A path is a sequence of name segments. Two paths "resolve" to the same place
  exactly when they are equal. `startsWith` on path strings becomes a segment
  prefix test.
- A name stored in the tree is never empty, `.` or `..`. `path.join` resolves
  such a name: an empty name or `.` stays in the folder, `..` goes up one
  level. So a folder named `$.` unescapes to its parent and one named `$..` to
  its grandparent, just as `$` alone does.
- `readdirSync` returns each child once, in an order the filesystem chooses.
  Every property below holds for every listing order.
- `renameSync` behaves as rename(2) in POSIX.1-2017. It fails with ENOENT,
  EINVAL, EISDIR, ENOTDIR or ENOTEMPTY. Otherwise it replaces a file or an
  empty directory at the target.
- `removeSync` removes a path and its subtree. A missing path is not an error.

## What is proved

- **Locators.** `null` (`None`) comes back exactly when no folder at or under
  the start holds an anchor. The start throws exactly when it is not a folder.
  A returned anchor sits in a folder with no anchor on the way down from the
  start.
- **Normalisers, failures.** They throw before changing anything when there is
  no anchor.
- **Normalisers, anchor at the root.** When the anchor is in the root itself,
  they change nothing and return no customer.
- **Normalisers, no collision.** When no child of the anchor folder shares a
  name with a child of the root, every move succeeds. The root then holds
  exactly the anchor folder's former subtree. Outside the root nothing ever
  changes.
- **Customer.** The customer is the name of the folder above the anchor
  folder, present exactly when that folder lies strictly inside the root.
- **Renamer.** Call a tree *unambiguous* when the root is a folder and no
  rename target already exists. For unambiguous trees:
  - the walk succeeds exactly when no `$`-folder has a subdirectory;
  - on success, the walk has gone through every folder at or under the root,
    and every `$`-folder has moved, contents and all, to its name without
    the `$`;
  - when the walk throws part-way, exactly the `$`-folders among the folders
    it got through have been renamed, each moved whole, and nothing else has
    changed.
- **Renamer order.** The walk's list is a FIFO queue: subdirectories go to the
  front and the next folder comes off the end. The queue only ever holds
  folders of two adjacent depths, the deeper ones in front. So the walk is
  breadth-first: no folder it goes through is shallower than one it went
  through before, and every folder comes after its ancestors.

## Documentation and code disagree

The model follows the code in each of these cases:

- The comment at `src/zip/zipAnalyzer.js:43-61` says the customer is a folder
  *path* (the root or the parent folder). The code returns the parent's
  *basename*, or `undefined`.
- The comment at `:111-119` promises the *shallowest* `PlatformModule.xml`. The
  code's stack does not deliver that (see `Anchors.DeeperAnchorAllowed`).
- The name `renameFoldersInDepthFirstOrder` says depth-first. The code
  (`:190`, `:202`) visits folders breadth-first
  (`EscapeRenamer.RenameFoldersInDepthFirstOrder`, `EscapeRenamer.BreadthFirstSorted`).

## Model

| member | source | states |
|---|---|---|
| Paths.Dirname | src/zip/zipAnalyzer.js:15-16 | the parent of a non-root path drops exactly its last segment and is a prefix of it; the root is its own parent |
| Paths.Join | src/zip/zipAnalyzer.js:180-181 | joining an entry name adds one segment whose parent is the folder and whose basename is the name; joining an empty name or `.` leaves the folder; joining `..` gives the folder's parent |
| Paths.StripEscape | src/zip/zipAnalyzer.js:209 | the new name is the old name without its leading `$`: `$` followed by the result gives the old name back |
| FileTree.Children | src/zip/zipAnalyzer.js:193 | a name is listed for a folder exactly when the folder has an entry of that name |
| FileTree.Rebase | src/zip/zipAnalyzer.js:182 | a path carried from one subtree to another lands under the target, with its relative part kept |
| FileTree.Relocated | src/zip/zipAnalyzer.js:182 | the paths a moved subtree occupies are exactly those under the target whose source counterpart exists |
| FileTree.MoveTree | src/zip/zipAnalyzer.js:182 | after a move, entries outside source and target are unchanged and each entry under the target is the source entry at the same relative place |
| FileTree.RenameSpec | src/zip/zipAnalyzer.js:182 | a missing source fails with ENOENT; a move into the source's own subtree fails with EINVAL; on success the target holds the source's kind, the source is gone unless the target is above it, an existing target was of the same kind and, if a folder, empty, and a new target sits in an existing folder |
| FileTree.RenameIsMove | src/zip/zipAnalyzer.js:182 | a rename that succeeds and is not a no-op moves an existing subtree to a place neither inside nor above it, in an existing folder |
| FileTree.MoveTreeWellFormed | src/zip/zipAnalyzer.js:182 | such a move leaves a well-formed tree |
| FileTree.RenameWellFormed | src/zip/zipAnalyzer.js:211 | a successful rename leaves a well-formed tree and changes nothing outside the source and target subtrees |
| FileTree.RemoveWellFormed | src/zip/zipAnalyzer.js:102 | removing a non-root entry leaves a well-formed tree |
| FileSystems.FileSystem.Exists | src/zip/zipAnalyzer.js:230 | a non-root path exists exactly when its parent lists its name, and then the parent is a folder; the root always exists |
| FileSystems.FileSystem.IsDirectory | src/zip/zipAnalyzer.js:158-159 | an existing entry is a directory exactly when it is a `Dir`; an entry that is not one has nothing under it |
| FileSystems.FileSystem.Readdir | src/zip/zipAnalyzer.js:193 | listing succeeds exactly on a folder, lists each child once and nothing else, and otherwise fails with ENOTDIR or ENOENT |
| FileSystems.FileSystem.Rename | src/zip/zipAnalyzer.js:182 | the new state is the rename(2) result on success; on failure the state is unchanged and the error is rename(2)'s |
| FileSystems.FileSystem.Remove | src/zip/zipAnalyzer.js:102 | the path and everything under it are gone and nothing else changes |
| Frontiers.FrontierInit | src/zip/zipAnalyzer.js:145 | a walk that starts with only its start folder satisfies the walk invariant |
| Frontiers.FrontierTop | src/zip/zipAnalyzer.js:148 | the folder popped is unvisited, under the start, not elsewhere in the list, above no visited folder, and has every ancestor down from the start visited |
| Frontiers.FrontierUnlisted | src/zip/zipAnalyzer.js:156 | a popped folder that is not a folder can only be the start folder, popped first |
| Frontiers.FrontierStep | src/zip/zipAnalyzer.js:156-162 | visiting the popped folder and adding its subdirectories, in any order, keeps every unvisited folder under the start reachable from the list |
| Frontiers.StepQueued | src/zip/zipAnalyzer.js:156-162 | after the step, every pending folder is a new directory under the start with all its ancestors down from the start visited |
| Frontiers.StepCovers | src/zip/zipAnalyzer.js:156-162 | after the step, every unvisited directory under the start still lies under a pending folder |
| Frontiers.FrontierDone | src/zip/zipAnalyzer.js:147 | once the list is empty, every folder at or under the start has been visited |
| Anchors.IsFolderPlatformModule | src/zip/zipAnalyzer.js:228-235 | returns `<folder>/PlatformModule.xml` exactly when that entry exists, and `false` otherwise |
| Anchors.IsFolderUnitTest | src/zip/zipAnalyzer.js:217-225 | throws exactly when the folder cannot be listed; otherwise returns an entry of the folder whose name ends in `.spec.js` exactly when one exists |
| Anchors.SubdirectoryPaths | src/zip/zipAnalyzer.js:156-162 | the paths pushed are distinct subdirectories of the folder, and every subdirectory is among them |
| Anchors.PushedChildren | src/zip/zipAnalyzer.js:156-162 | the stack after pushing a folder's subdirectories holds no repeats, and holds exactly the old stack and that folder's subdirectories |
| Anchors.WalkStep | src/zip/zipAnalyzer.js:150-162 | pushing the subdirectories of a folder without an anchor keeps the invariant that no visited folder holds an anchor |
| Anchors.WalkFound | src/zip/zipAnalyzer.js:150-153 | an anchor in the popped folder has none in any folder on the way down from the start |
| Anchors.WalkDone | src/zip/zipAnalyzer.js:147-165 | an emptied stack means no folder at or under the start holds an anchor |
| Anchors.FindAnchor | src/zip/zipAnalyzer.js:144-166 | throws exactly when the start is not a folder; returns null exactly when no folder below holds an anchor; otherwise returns an anchor with none on the way down |
| Anchors.FindPlatformModule | src/zip/zipAnalyzer.js:144-166 | the `FindAnchor` contract for `PlatformModule.xml` |
| Anchors.FindUnitTest | src/zip/zipAnalyzer.js:120-142 | the `FindAnchor` contract for `*.spec.js` entries |
| Anchors.DeeperAnchorAllowed | src/zip/zipAnalyzer.js:111-119 | in a tree with `a/x/PlatformModule.xml` and `b/PlatformModule.xml`, both anchors satisfy the walk's contract, so the shallowest one is not promised |
| Promotion.Promoted | src/zip/zipAnalyzer.js:62-96 | the intended end state: unchanged outside the root, and under the root exactly what was under the anchor folder |
| Promotion.CustomerOf | src/zip/zipAnalyzer.js:84-88 | a customer is guessed exactly when the anchor folder lies at least two levels below the root, and it is the name of the anchor folder's parent |
| Promotion.HoistStep | src/zip/zipAnalyzer.js:179-183 | without a collision, moving one more child of the anchor folder up succeeds and adds that child's subtree under the root |
| Promotion.HoistRename | src/zip/zipAnalyzer.js:182 | the next rename succeeds: its source is still in place and its target is free |
| Promotion.HoistMove | src/zip/zipAnalyzer.js:182 | that rename's result is the tree with one more child hoisted |
| Promotion.MoveEachHoists | src/zip/zipAnalyzer.js:177-184 | without collisions, moving all listed children succeeds and hoists each of them |
| Promotion.RemoveEachRemovesAll | src/zip/zipAnalyzer.js:98-109 | removing the listed children one by one removes every listed child with its subtree |
| Promotion.ClearedHoistIsPromoted | src/zip/zipAnalyzer.js:90-93 | after hoisting, removing the root's original children leaves exactly the promoted tree |
| Promotion.PromoteWithoutCollision | src/zip/zipAnalyzer.js:77-93 | without collisions, the moves all succeed and the later deletions leave the root holding exactly the anchor folder's former subtree |
| Promotion.MoveEachFrame | src/zip/zipAnalyzer.js:177-184 | whatever the renames do, with or without collisions, they keep a well-formed tree and change nothing outside the root's strict subtree |
| Promotion.RemoveEachFrame | src/zip/zipAnalyzer.js:98-109 | the deletions change nothing outside the folder's strict subtree |
| Promotion.MoveFolderContents | src/zip/zipAnalyzer.js:177-184 | throws unchanged when the source cannot be listed; otherwise renames each listed child in listing order and stops at the first rename that fails |
| Promotion.DeleteAllFilesAndFolders | src/zip/zipAnalyzer.js:98-109 | removes every named child of the folder in turn |
| Promotion.NormalizeAnchored | src/zip/zipAnalyzer.js:62-96 | throws unchanged without an anchor; changes nothing and returns no customer when the anchor is in the root; otherwise moves the anchor folder's children up one by one, throwing with the state the failed rename left, and then removes the root's original children; without collisions, this promotes the anchor folder and returns the guessed customer; never changes anything outside the root |
| Promotion.GetCustomerAndNormalizePlatformModule | src/zip/zipAnalyzer.js:62-96 | the `NormalizeAnchored` contract for `PlatformModule.xml` |
| Promotion.GetCustomerAndNormalizeUnitTest | src/zip/zipAnalyzer.js:7-41 | the `NormalizeAnchored` contract for `*.spec.js` entries |
| EscapeRenamer.Unescaped | src/zip/zipAnalyzer.js:207-210 | an escaped folder whose name minus the `$` is an entry name gets the same parent and a name one `$` shorter; `$` and `$.` map to the parent, `$..` to the grandparent, always a proper ancestor; other paths are unchanged |
| EscapeRenamer.TargetShape | src/zip/zipAnalyzer.js:208-210 | in an unambiguous tree, every `$`-folder's name minus the `$` is an entry name, so its target is a free path beside it |
| EscapeRenamer.DotTargetCollides | src/zip/zipAnalyzer.js:208-211 | a `$`, `$.` or `$..` folder targets an ancestor that holds it: its rename fails with ENOTEMPTY and the tree is not unambiguous |
| EscapeRenamer.DollarDotNotUnambiguous | src/zip/zipAnalyzer.js:208-211 | a root holding one folder named `$.` is a well-formed tree that is not unambiguous |
| EscapeRenamer.QueueTop | src/zip/zipAnalyzer.js:190 | the folder taken off the end is new, under the root, within the finite set of paths the walk can meet, and no child of it is queued or visited yet |
| EscapeRenamer.QueueStep | src/zip/zipAnalyzer.js:196-204 | queueing the children of the visited folder keeps the queue's shape |
| EscapeRenamer.LevelStep | src/zip/zipAnalyzer.js:190-204 | taking the last folder off a queue of two adjacent depths and putting its subdirectories in front keeps two adjacent depths, the deeper in front; the folder taken is no shallower than the queue's shallower depth |
| EscapeRenamer.BreadthFirstSorted | src/zip/zipAnalyzer.js:189-190 | an order in which each folder is no shallower than the one before never has a folder shallower than an earlier one, and puts every folder after its ancestors |
| EscapeRenamer.VisitOrderStep | src/zip/zipAnalyzer.js:190 | appending a new folder, no shallower than the last, keeps the record of folders gone through breadth-first and free of repeats |
| EscapeRenamer.WalkOrderStep | src/zip/zipAnalyzer.js:190-204 | one pass of the loop keeps both the two-depth queue and the breadth-first record |
| EscapeRenamer.RenamedInOrder | src/zip/zipAnalyzer.js:206-212 | the `$`-folders in the record of folders gone through are exactly those the walk renamed |
| EscapeRenamer.TargetsApart | src/zip/zipAnalyzer.js:208-210 | in an unambiguous tree, two different `$`-folders never rename to nested paths |
| EscapeRenamer.RenameStep | src/zip/zipAnalyzer.js:211 | in an unambiguous tree, renaming a `$`-folder that is neither under nor above a renamed one succeeds and moves its whole subtree |
| EscapeRenamer.LiveChildren | src/zip/zipAnalyzer.js:193 | in an unambiguous tree, a folder the walk can list is an original folder under no renamed one, with its original children |
| EscapeRenamer.ListingFailure | src/zip/zipAnalyzer.js:193 | in an unambiguous tree, a listing that fails is of a stale path, so some `$`-folder had a subdirectory |
| EscapeRenamer.VisitStep | src/zip/zipAnalyzer.js:189-213 | visiting a folder adds it to the renamed set exactly when it is a `$`-folder other than the root |
| EscapeRenamer.WalkEnd | src/zip/zipAnalyzer.js:189 | when the queue is empty, every `$`-folder was renamed and none had a subdirectory |
| EscapeRenamer.RenameFrame | src/zip/zipAnalyzer.js:211 | a rename below the root changes nothing outside the root's strict subtree |
| EscapeRenamer.InvariantInit | src/zip/zipAnalyzer.js:187 | the walk invariant holds for a queue holding only the root |
| EscapeRenamer.VisitKeepsInvariant | src/zip/zipAnalyzer.js:193-204 | visiting a folder that is not renamed keeps the walk invariant |
| EscapeRenamer.RenameKeepsInvariant | src/zip/zipAnalyzer.js:206-212 | visiting and renaming a `$`-folder keeps the walk invariant |
| EscapeRenamer.RenameSucceeds | src/zip/zipAnalyzer.js:211 | in an unambiguous tree, every rename the walk attempts succeeds |
| EscapeRenamer.ChildrenAgree | src/zip/zipAnalyzer.js:196-204 | the subdirectories queued for a listed folder are its original ones, so the walk over the original tree moves on |
| EscapeRenamer.ListedDirsMembers | src/zip/zipAnalyzer.js:196-204 | the folders put in front of the queue are exactly the subdirectories among the listed names, each once |
| EscapeRenamer.QueueSubdirectories | src/zip/zipAnalyzer.js:196-204 | the new queue is the listed subdirectories, in reverse listing order, followed by the old queue unchanged (FIFO) |
| EscapeRenamer.QueuedChildren | src/zip/zipAnalyzer.js:196-204 | that queue holds no repeats, and holds exactly the old queue and the subdirectories of the listed folder |
| EscapeRenamer.ChildPaths | src/zip/zipAnalyzer.js:196-204 | a queue extended in front by exactly the subdirectories of a folder holds exactly the old queue and those subdirectories |
| EscapeRenamer.VisitFolder | src/zip/zipAnalyzer.js:190-213 | one loop pass keeps the walk invariant and puts only folders one level deeper than the one taken in front of the rest of the queue; when it throws, nothing outside the root has changed, and in an unambiguous tree the renames so far are intact and some `$`-folder has a subdirectory |
| EscapeRenamer.WalkComplete | src/zip/zipAnalyzer.js:189 | in an unambiguous tree, an emptied queue means the walk went through exactly the folders at or under the root and renamed every `$`-folder, none of which had a subdirectory |
| EscapeRenamer.DrainQueue | src/zip/zipAnalyzer.js:187-214 | the loop goes through folders breadth-first, each once; it ends with the walk invariant on an empty queue, or, when a pass throws, with the frame and, in an unambiguous tree, with the folders gone through renamed and some `$`-folder having a subdirectory |
| EscapeRenamer.RenameFoldersInDepthFirstOrder | src/zip/zipAnalyzer.js:186-215 | never changes anything outside the root's strict subtree; fails unchanged on a root that is not a folder; goes through folders breadth-first, each once and ancestors first; in an unambiguous tree, exactly the `$`-folders gone through are renamed, whole, whether or not the walk throws, the walk succeeds exactly when no `$`-folder has a subdirectory, and then it has gone through every folder and moved every `$`-folder with its contents to its unescaped name |
| EscapeRenamer.NotIdempotent | src/zip/zipAnalyzer.js:209 | a folder named `$$X` becomes `$X`, which a second pass would rename again |

## Left out

- `src/te-extractor.js`, `src/te-builder.js` and `src/index.js` are not part of
  this model. They handle command-line input, prompts, temporary folders and
  copying; all of it is I/O orchestration.
- `src/file/fileUtils.js` is not part of this model. It lists archives by
  modification time, which depends on I/O and clocks.
- `src/zip/zipExtractor.js` and `src/zip/zipBuilder.js` are not part of this
  model. They are wrappers over external zip libraries.
- `console.log` and `console.error` output is not modelled.
- `path.resolve` and string `startsWith` become segment equality and segment
  prefix. Names never contain a separator, and a trailing separator is not
  modelled. The names `.` and `..` reach `path.join` only from a stripped `$`
  and are resolved there; `Paths.Join` models that resolution.
- Symbolic links, permissions and timestamps are not modelled. `statSync` and
  `lstatSync` therefore agree.
- Promotion.DeleteAllFilesAndFolders: no removal ever fails, because no
  permissions are modelled. In the source, the `catch` at
  `src/zip/zipAnalyzer.js:103-106` reads an undefined `error`. A failed removal
  there throws a ReferenceError instead of logging; that path has no
  counterpart in the model.
- Anchors.FindAnchor: does not promise the shallowest anchor, and neither does
  the code. The listing order is a free choice of the filesystem, so the model
  shows only that its contract allows a deeper anchor
  (`Anchors.DeeperAnchorAllowed`). It does not show one particular run that
  returns it.
- Promotion.NormalizeAnchored: when an anchor-folder child shares a name with a
  root child, the end state is stated only step by step. It is the renames of
  `MoveEach` followed by the removals of `RemoveEach`. No closed form such as
  `Promoted` is given for it.
- Promotion.GetCustomerAndNormalizePlatformModule: the same gap as
  `Promotion.NormalizeAnchored` when a child collides.
- Promotion.GetCustomerAndNormalizeUnitTest: the same gap as
  `Promotion.NormalizeAnchored` when a child collides.
- EscapeRenamer.RenameFoldersInDepthFirstOrder: the exact result and the
  success condition are stated only for unambiguous trees, after a completed
  walk and after an aborted one alike. Beyond that, a colliding tree gets only
  the frame, the visiting order and the failure on a root that is not a
  folder. Colliding trees include a target name that is already taken. They
  also include a folder named `$`, `$.` or `$..`, whose target is an ancestor
  of it (`EscapeRenamer.DotTargetCollides`).
