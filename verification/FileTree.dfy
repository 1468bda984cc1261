/**
 A file system as the operating system resolves paths in it (Pathname Resolution, section 4.13 of POSIX.1-2017): a tree of
 directories, files and symlinks, dangling and cyclic ones included. Paths are lists of components from the root.
 */
module FileTree {
  import opened Wrappers

  type Path = seq<string>

  /** `Special` is anything else: a socket, a device. */
  datatype Node = Dir | File | Special | Link(absolute: bool, target: seq<string>)

  type Tree = map<Path, Node>

  datatype Errno = ENOENT | ENOTDIR | ELOOP | EEXIST

  predicate IsMissing(e: Errno) {
    e == ENOENT || e == ENOTDIR
  }

  predicate IsName(c: string) {
    c != "" && c != "." && c != ".." && '/' !in c
  }

  predicate IsPath(p: Path) {
    forall k :: 0 <= k < |p| ==> IsName(p[k])
  }

  function Parent(p: Path): (r: Path)
    ensures p != [] ==> |r| == |p| - 1
  {
    if p == [] then [] else p[..|p| - 1]
  }

  function At(fs: Tree, p: Path): Option<Node> {
    if p == [] then Some(Dir) else if p in fs then Some(fs[p]) else None
  }

  predicate IsLink(fs: Tree, p: Path) {
    At(fs, p).Some? && At(fs, p).value.Link?
  }

  /** Every node lies in a directory. */
  ghost predicate WellFormed(fs: Tree) {
    forall p :: p in fs ==> p != [] && At(fs, Parent(p)) == Some(Dir)
  }

  // ---- resolution by the operating system

  /** Where a walk got to, and how many more symlinks it may follow. */
  datatype Place = Place(path: Path, left: nat)

  function Start(at: Path, link: Node): Path
    requires link.Link?
  {
    if link.absolute then [] else at
  }

  /**
   The system's walk from `at`, following at most `left` symlinks. Everything must exist; with `create` the last component
   may be missing, and the walk then ends where it is created.
   */
  function OsWalk(fs: Tree, create: bool, at: Path, pending: seq<string>, left: nat): Result<Place, Errno>
    decreases left, |pending|
  {
    if pending == [] then Success(Place(at, left))
    else if At(fs, at) != Some(Dir) then Failure(ENOTDIR)
    else
      var component, rest := pending[0], pending[1..];
      if component == "." then OsWalk(fs, create, at, rest, left)
      else if component == ".." then OsWalk(fs, create, Parent(at), rest, left)
      else
        var next := at + [component];
        match At(fs, next)
        case None => if create && rest == [] then Success(Place(next, left)) else Failure(ENOENT)
        case Some(Link(absolute, target)) =>
          if left == 0 then Failure(ELOOP) else OsWalk(fs, create, if absolute then [] else at, target + rest, left - 1)
        case Some(_) => OsWalk(fs, create, next, rest, left)
  }

  /** realpath of a path of components, on a system that follows at most `limit` symlinks. */
  function Realpath(fs: Tree, limit: nat, file: seq<string>): Result<Path, Errno> {
    var place :- OsWalk(fs, false, [], file, limit);
    Success(place.path)
  }

  /** Where opening `file` for writing, creating it if need be, lands. */
  function WriteLandsAt(fs: Tree, limit: nat, file: seq<string>): Result<Path, Errno> {
    var place :- OsWalk(fs, true, [], file, limit);
    Success(place.path)
  }

  /** The node `file` names, its last component not followed. */
  function Lstat(fs: Tree, limit: nat, file: Path): Result<Node, Errno>
    requires file != []
  {
    var dir :- Realpath(fs, limit, Parent(file));
    if At(fs, dir) != Some(Dir) then Failure(ENOTDIR)
    else
      var node := At(fs, dir + [file[|file| - 1]]);
      if node.None? then Failure(ENOENT) else Success(node.value)
  }

  /**
   mkdir with `recursive`: creates the missing directories, following symlinks; a dangling one is in the way. What was created
   before an error stays.
   */
  function MakeDirs(fs: Tree, limit: nat, dir: Path): (r: (Tree, Option<Errno>))
    decreases |dir|
  {
    var found := Realpath(fs, limit, dir);
    if found.Success? then (fs, if At(fs, found.value) == Some(Dir) then None else Some(EEXIST))
    else if found.error != ENOENT || dir == [] then (fs, Some(found.error))
    else
      var made := MakeDirs(fs, limit, Parent(dir));
      if made.1.Some? then made else MakeLast(made.0, limit, dir)
  }

  /** mkdir of the last component. */
  function MakeLast(fs: Tree, limit: nat, dir: Path): (r: (Tree, Option<Errno>))
    requires dir != []
  {
    var parent := Realpath(fs, limit, Parent(dir));
    if parent.Failure? then (fs, Some(parent.error))
    else if At(fs, parent.value) != Some(Dir) then (fs, Some(ENOTDIR))
    else
      var created := parent.value + [dir[|dir| - 1]];
      if At(fs, created).Some? then (fs, Some(EEXIST)) else (fs[created := Dir], None)
  }

  /** unlink: removes the node `file` names, its last component not followed. */
  function Unlink(fs: Tree, limit: nat, file: Path): Result<Tree, Errno>
    requires file != []
  {
    var dir :- Realpath(fs, limit, Parent(file));
    if dir + [file[|file| - 1]] !in fs then Failure(ENOENT) else Success(fs - {dir + [file[|file| - 1]]})
  }

  // ---- the walk in parts

  /** Walking `a` and then one more component is walking both. */
  lemma {:induction false} OsWalkSnoc(fs: Tree, create: bool, at: Path, a: seq<string>, c: string, left: nat)
    ensures var first := OsWalk(fs, false, at, a, left);
            OsWalk(fs, create, at, a + [c], left) ==
            if first.Failure? then first else OsWalk(fs, create, first.value.path, [c], first.value.left)
    decreases left, |a|
  {
    if a == [] {
      assert a + [c] == [c];
    } else {
      var rest := a[1..];
      assert (a + [c])[0] == a[0] && (a + [c])[1..] == rest + [c];
      if At(fs, at) == Some(Dir) {
        if a[0] == "." {
          OsWalkSnoc(fs, create, at, rest, c, left);
        } else if a[0] == ".." {
          OsWalkSnoc(fs, create, Parent(at), rest, c, left);
        } else {
          var node := At(fs, at + [a[0]]);
          if node.Some? && node.value.Link? {
            if left > 0 {
              assert node.value.target + (rest + [c]) == (node.value.target + rest) + [c];
              OsWalkSnoc(fs, create, Start(at, node.value), node.value.target + rest, c, left - 1);
            }
          } else if node.Some? {
            OsWalkSnoc(fs, create, at + [a[0]], rest, c, left);
          }
        }
      }
    }
  }

  /** Does the system's walk follow the symlink p? */
  predicate FollowsLink(fs: Tree, at: Path, pending: seq<string>, left: nat, p: Path)
    decreases left, |pending|
  {
    if pending == [] || At(fs, at) != Some(Dir) then false
    else
      var component, rest := pending[0], pending[1..];
      if component == "." then FollowsLink(fs, at, rest, left, p)
      else if component == ".." then FollowsLink(fs, Parent(at), rest, left, p)
      else
        var next := at + [component];
        match At(fs, next)
        case None => false
        case Some(Link(absolute, target)) => next == p || (left > 0 && FollowsLink(fs, Start(at, At(fs, next).value), target + rest, left - 1, p))
        case Some(_) => FollowsLink(fs, next, rest, left, p)
  }

  /** Without a node that is no directory a way to a directory is lost exactly when it followed that node as a symlink. */
  lemma {:induction false} WalkWithout(fs: Tree, at: Path, pending: seq<string>, left: nat, p: Path)
    requires p in fs && p != [] && fs[p] != Dir
    requires OsWalk(fs, false, at, pending, left).Success? && At(fs, OsWalk(fs, false, at, pending, left).value.path) == Some(Dir)
    ensures OsWalk(fs - {p}, false, at, pending, left) ==
            if FollowsLink(fs, at, pending, left, p) then Failure(ENOENT) else OsWalk(fs, false, at, pending, left)
    decreases left, |pending|
  {
    if pending != [] {
      var component, rest, less := pending[0], pending[1..], fs - {p};
      assert At(less, at) == Some(Dir);
      if component == "." {
        WalkWithout(fs, at, rest, left, p);
      } else if component == ".." {
        WalkWithout(fs, Parent(at), rest, left, p);
      } else {
        var next := at + [component];
        var node := At(fs, next).value;
        if node.Link? && next != p {
          WalkWithout(fs, Start(at, node), node.target + rest, left - 1, p);
        } else if !node.Link? {
          WalkWithout(fs, next, rest, left, p);
        }
      }
    }
  }

  ghost predicate Extends(more: Tree, less: Tree) {
    forall p :: p in less ==> p in more && more[p] == less[p]
  }

  /** What resolves in a tree resolves alike when the tree has more in it. */
  lemma {:induction false} MoreNodesSameWalk(less: Tree, more: Tree, at: Path, pending: seq<string>, left: nat)
    requires Extends(more, less) && OsWalk(less, false, at, pending, left).Success?
    ensures OsWalk(more, false, at, pending, left) == OsWalk(less, false, at, pending, left)
    decreases left, |pending|
  {
    if pending != [] {
      var component, rest := pending[0], pending[1..];
      if component == "." {
        MoreNodesSameWalk(less, more, at, rest, left);
      } else if component == ".." {
        MoreNodesSameWalk(less, more, Parent(at), rest, left);
      } else {
        var node := At(less, at + [component]).value;
        if node.Link? {
          MoreNodesSameWalk(less, more, Start(at, node), node.target + rest, left - 1);
        } else {
          MoreNodesSameWalk(less, more, at + [component], rest, left);
        }
      }
    }
  }
}
