/** The guard that keeps writes inside a root directory, whatever symlinks lie below it. */
module WriteGuard {
  import opened FileTree
  import opened PhysicalPath
  import opened Texts
  import opened Wrappers

  // ---- comparing paths

  function CommonLength(a: Path, b: Path): (n: nat)
    ensures n <= |a| && n <= |b| && a[..n] == b[..n]
    ensures n < |a| && n < |b| ==> a[n] != b[n]
  {
    if a != [] && b != [] && a[0] == b[0] then
      assert a[..1 + CommonLength(a[1..], b[1..])] == [a[0]] + a[1..][..CommonLength(a[1..], b[1..])];
      assert b[..1 + CommonLength(a[1..], b[1..])] == [b[0]] + b[1..][..CommonLength(a[1..], b[1..])];
      1 + CommonLength(a[1..], b[1..])
    else 0
  }

  /** path.relative: up to what both have in common, then down. */
  function Relative(root: Path, file: Path): string {
    var n := CommonLength(root, file);
    Join(seq(|root| - n, _ => "..") + file[n..], '/')
  }

  predicate StartsWith(s: string, prefix: string) {
    |prefix| <= |s| && s[..|prefix|] == prefix
  }

  /** isPathWithin. */
  predicate IsPathWithin(root: Path, file: Path) {
    var relative := Relative(root, file);
    relative == "" || (relative != ".." && !StartsWith(relative, "../") && !StartsWith(relative, "/"))
  }

  /** The text comparison is the comparison of components: also for names that begin with two dots. */
  lemma WithinIsPrefix(root: Path, file: Path)
    requires IsPath(root) && IsPath(file)
    ensures IsPathWithin(root, file) <==> root <= file
  {
    var n := CommonLength(root, file);
    var up, down := seq(|root| - n, _ => ".."), file[n..];
    if n < |root| {
      assert (up + down)[0] == "..";
      assert Relative(root, file) == ".." || StartsWith(Relative(root, file), "../");
    } else {
      assert up + down == down;
      if down != [] {
        assert IsName(down[0]) && down[0] == file[n];
        NameFirst(down);
      }
    }
  }

  lemma NameFirst(down: Path)
    requires down != [] && IsName(down[0])
    ensures var text := Join(down, '/'); text != ".." && !StartsWith(text, "../") && !StartsWith(text, "/")
  {
    var name, text := down[0], Join(down, '/');
    assert text[..|name|] == name;
    assert name[0] == text[0];
    if StartsWith(text, "../") {
      TwoDots(text, name);
    }
  }

  /** The only names a text beginning with `../` can begin with. */
  lemma TwoDots(text: string, name: string)
    requires StartsWith(text, "../") && StartsWith(text, name) && name != "" && '/' !in name
    ensures name == "." || name == ".."
  {
    assert text[0] == text[..3][0] == '.' && text[1] == text[..3][1] == '.' && text[2] == text[..3][2] == '/';
    assert forall k :: 0 <= k < |name| ==> text[..|name|][k] == text[k] == name[k];
    assert |name| <= 2;
  }

  // ---- directories created on the way

  /** Walking `a` and then one more component is walking both. */
  lemma {:induction false} WalkSnoc(fs: Tree, at: Path, a: seq<string>, c: string, left: nat)
    ensures var first := Walk(fs, at, a, left);
            Walk(fs, at, a + [c], left) == if first.Failure? then first else Walk(fs, first.value.path, [c], first.value.left)
    decreases left, |a|
  {
    if a == [] {
      assert a + [c] == [c];
    } else {
      var rest, next := a[1..], at + [a[0]];
      assert (a + [c])[0] == a[0] && (a + [c])[1..] == rest + [c];
      if a[0] == "." {
        WalkSnoc(fs, at, rest, c, left);
      } else if a[0] == ".." {
        WalkSnoc(fs, Parent(at), rest, c, left);
      } else if !IsLink(fs, next) {
        WalkSnoc(fs, next, rest, c, left);
      } else if left > 0 {
        var node := At(fs, next).value;
        assert node.target + (rest + [c]) == (node.target + rest) + [c];
        WalkSnoc(fs, Start(at, node), node.target + rest, c, left - 1);
      }
    }
  }

  /** More directories: nothing else changed. */
  ghost predicate AddsDirs(more: Tree, less: Tree) {
    Extends(more, less) && forall p :: p in more && p !in less ==> more[p] == Dir
  }

  /** The component walk looks at symlinks only. */
  lemma {:induction false} DirsKeepWalk(less: Tree, more: Tree, at: Path, pending: seq<string>, left: nat)
    requires AddsDirs(more, less)
    ensures Walk(more, at, pending, left) == Walk(less, at, pending, left)
    decreases left, |pending|
  {
    if pending != [] {
      var rest, next := pending[1..], at + [pending[0]];
      if pending[0] == "." {
        DirsKeepWalk(less, more, at, rest, left);
      } else if pending[0] == ".." {
        DirsKeepWalk(less, more, Parent(at), rest, left);
      } else {
        assert IsLink(more, next) <==> IsLink(less, next);
        if !IsLink(less, next) {
          DirsKeepWalk(less, more, next, rest, left);
        } else if left > 0 {
          var node := At(less, next).value;
          DirsKeepWalk(less, more, Start(at, node), node.target + rest, left - 1);
        }
      }
    }
  }

  ghost predicate CreatedOnTheWay(fs: Tree, more: Tree, end: Path) {
    AddsDirs(more, fs) && forall p :: p in more && p !in fs ==> p <= end
  }

  lemma PrefixOf(p: Path, end: Path)
    requires p <= end
    ensures p == end[..|p|]
  {
  }

  lemma NothingCreated(fs: Tree, end: Path)
    ensures CreatedOnTheWay(fs, fs, end)
  {
  }

  /** When the end exists already nothing was missing on the way. */
  lemma NothingMissing(fs: Tree, more: Tree, end: Path)
    requires WellFormed(fs) && CreatedOnTheWay(fs, more, end) && At(fs, end).Some? && [] !in more
    ensures more == fs
  {
    forall p | p in more ensures p in fs {
      if p !in fs {
        PrefixOf(p, end);
        PrefixExists(fs, end, |p|);
      }
    }
  }

  /** What the walk says of the parent, and of the last component. */
  lemma WalkOfParent(fs: Tree, dir: Path, left: nat)
    requires dir != [] && IsPath(dir) && Walk(fs, [], dir, left).Success?
    ensures Walk(fs, [], Parent(dir), left).Success?
    ensures var parent, c := Walk(fs, [], Parent(dir), left).value.path, dir[|dir| - 1];
            !IsLink(fs, parent + [c]) ==> Walk(fs, [], dir, left).value.path == parent + [c]
  {
    var c := dir[|dir| - 1];
    assert dir == Parent(dir) + [c] && IsName(c);
    WalkSnoc(fs, [], Parent(dir), c, left);
    hide IsName;
    if Walk(fs, [], Parent(dir), left).Success? {
      var place := Walk(fs, [], Parent(dir), left).value;
      assert [c][1..] == [];
    }
  }

  lemma WellFormedWith(fs: Tree, p: Path)
    requires WellFormed(fs) && ProperTargets(fs) && p != [] && At(fs, Parent(p)) == Some(Dir) && p !in fs
    ensures WellFormed(fs[p := Dir]) && ProperTargets(fs[p := Dir])
  {
    var more := fs[p := Dir];
    assert forall q :: q in more ==> q == p || q in fs;
    forall q | q in more ensures q != [] && At(more, Parent(q)) == Some(Dir) {
      if q != p {
        assert At(fs, Parent(q)) == Some(Dir);
      }
    }
  }

  /**
   Making directories creates nothing but directories, all of them on the way to where the path resolved to beforehand -
   also when it fails halfway.
   */
  lemma {:induction false} MakesDirsOnTheWay(fs: Tree, limit: nat, dir: Path)
    requires limit <= MAX_SYMLINK_HOPS && WellFormed(fs) && ProperTargets(fs) && IsPath(dir)
    requires Walk(fs, [], dir, MAX_SYMLINK_HOPS).Success?
    ensures var made := MakeDirs(fs, limit, dir).0;
            && WellFormed(made) && ProperTargets(made)
            && CreatedOnTheWay(fs, made, Walk(fs, [], dir, MAX_SYMLINK_HOPS).value.path)
    decreases |dir|
  {
    hide WellFormed, ProperTargets, CreatedOnTheWay, Realpath;
    var end := Walk(fs, [], dir, MAX_SYMLINK_HOPS).value.path;
    NothingCreated(fs, end);
    var found := Realpath(fs, limit, dir);
    if found.Failure? && found.error == ENOENT && dir != [] {
      WalkOfParent(fs, dir, MAX_SYMLINK_HOPS);
      ParentIsPath(dir);
      MakesDirsOnTheWay(fs, limit, Parent(dir));
      var made, parentEnd := MakeDirs(fs, limit, Parent(dir)).0, Walk(fs, [], Parent(dir), MAX_SYMLINK_HOPS).value.path;
      LastOnTheWay(fs, made, limit, dir, parentEnd, end);
    }
  }

  lemma ParentIsPath(p: Path)
    requires IsPath(p)
    ensures IsPath(Parent(p))
  {
  }

  /** The last directory is created where the path resolves to, and what was created for its parent is on the way there. */
  lemma LastOnTheWay(fs: Tree, made: Tree, limit: nat, dir: Path, parentEnd: Path, end: Path)
    requires limit <= MAX_SYMLINK_HOPS && WellFormed(fs) && dir != []
    requires WellFormed(made) && ProperTargets(made) && CreatedOnTheWay(fs, made, parentEnd)
    requires Walk(fs, [], Parent(dir), MAX_SYMLINK_HOPS).Success? && Walk(fs, [], Parent(dir), MAX_SYMLINK_HOPS).value.path == parentEnd
    requires !IsLink(fs, parentEnd + [dir[|dir| - 1]]) ==> end == parentEnd + [dir[|dir| - 1]]
    ensures CreatedOnTheWay(fs, made, end)
    ensures var last := MakeLast(made, limit, dir).0; WellFormed(last) && ProperTargets(last) && CreatedOnTheWay(fs, last, end)
  {
    hide WellFormed, ProperTargets, IsLink, At;
    var next := parentEnd + [dir[|dir| - 1]];
    assert Parent(next) == parentEnd;
    if IsLink(fs, next) {
      LinkExists(fs, next);
      ParentIsDir(fs, next);
      RootIsNoEntry(made);
      NothingMissing(fs, made, parentEnd);
      NothingCreated(fs, end);
    } else {
      LongerWay(fs, made, parentEnd, next);
    }
    hide CreatedOnTheWay, Walk;
    if Realpath(made, limit, Parent(dir)).Success? {
      WritesLandWhereResolved(made, limit, Parent(dir));
      DirsKeepWalk(fs, made, [], Parent(dir), MAX_SYMLINK_HOPS);
      assert Realpath(made, limit, Parent(dir)).value == parentEnd;
      if At(made, parentEnd) == Some(Dir) && At(made, next).None? {
        NotThere(fs, made, next, parentEnd);
        WellFormedWith(made, next);
        OneMore(fs, made, next);
        assert MakeLast(made, limit, dir).0 == made[next := Dir];
      }
    }
  }

  lemma LinkExists(fs: Tree, p: Path)
    requires IsLink(fs, p)
    ensures At(fs, p).Some?
  {
  }

  lemma RootIsNoEntry(fs: Tree)
    requires WellFormed(fs)
    ensures [] !in fs
  {
  }

  lemma LongerWay(fs: Tree, more: Tree, end: Path, next: Path)
    requires CreatedOnTheWay(fs, more, end) && end <= next
    ensures CreatedOnTheWay(fs, more, next)
  {
    forall p | p in more && p !in fs ensures p <= next {
      assert p <= end;
    }
  }

  lemma NotThere(fs: Tree, more: Tree, p: Path, end: Path)
    requires CreatedOnTheWay(fs, more, end) && At(more, p).None?
    ensures p != [] && p !in more && p !in fs && !IsLink(fs, p)
  {
  }

  lemma OneMore(fs: Tree, more: Tree, p: Path)
    requires CreatedOnTheWay(fs, more, p) && p !in more && p !in fs
    ensures CreatedOnTheWay(fs, more[p := Dir], p)
  {
  }

  // ---- when directories are made

  /**
   The path leads to a directory, or some first part of it does and nothing is there at the next component, not even a
   dangling symlink.
   */
  predicate CanMake(fs: Tree, limit: nat, dir: Path) {
    exists n :: 0 <= n <= |dir| && RoomAfter(fs, limit, dir, n)
  }

  predicate RoomAfter(fs: Tree, limit: nat, dir: Path, n: nat)
    requires n <= |dir|
  {
    var found := Realpath(fs, limit, dir[..n]);
    && found.Success? && At(fs, found.value) == Some(Dir)
    && (n < |dir| ==> At(fs, found.value + [dir[n]]).None?)
  }

  /** Opening a way: the walk that made the last directory goes there now. */
  lemma MadeLastIsThere(fs: Tree, limit: nat, dir: Path)
    requires dir != [] && IsPath(dir) && MakeLast(fs, limit, dir).1.None?
    ensures var made := MakeLast(fs, limit, dir).0;
            && Realpath(fs, limit, Parent(dir)).Success?
            && var created := Realpath(fs, limit, Parent(dir)).value + [dir[|dir| - 1]];
               made == fs[created := Dir] && Realpath(made, limit, dir) == Success(created)
  {
    var made, c := MakeLast(fs, limit, dir).0, dir[|dir| - 1];
    assert Extends(made, fs);
    MoreNodesSameWalk(fs, made, [], Parent(dir), limit);
    assert dir == Parent(dir) + [c] && IsName(c);
    OsWalkSnoc(made, false, [], Parent(dir), c, limit);
    var place := OsWalk(made, false, [], Parent(dir), limit).value;
    assert [c][1..] == [];
    assert OsWalk(made, false, place.path, [c], place.left) == Success(Place(place.path + [c], place.left));
  }

  /** When making directories reports no error, the path leads to a directory. */
  lemma MadeIsThere(fs: Tree, limit: nat, dir: Path)
    requires IsPath(dir) && MakeDirs(fs, limit, dir).1.None?
    ensures var made := MakeDirs(fs, limit, dir).0;
            Realpath(made, limit, dir).Success? && At(made, Realpath(made, limit, dir).value) == Some(Dir)
  {
    hide Realpath, MakeLast;
    if Realpath(fs, limit, dir).Failure? {
      MadeLastIsThere(MakeDirs(fs, limit, Parent(dir)).0, limit, dir);
    }
  }

  /** Behind a part of the path at whose next component nothing is, nothing is found. */
  lemma {:induction false} MissingBehind(fs: Tree, limit: nat, dir: Path, n: nat, m: nat)
    requires IsPath(dir) && n < m <= |dir| && RoomAfter(fs, limit, dir, n)
    ensures Realpath(fs, limit, dir[..m]) == Failure(ENOENT)
    decreases m
  {
    var c := dir[m - 1];
    assert dir[..m] == dir[..m - 1] + [c] && IsName(c);
    OsWalkSnoc(fs, false, [], dir[..m - 1], c, limit);
    if m - 1 > n {
      MissingBehind(fs, limit, dir, n, m - 1);
    } else {
      assert [c][1..] == [];
    }
  }

  /** From such a part on the directories are made, each in the one before, and nothing was below them. */
  lemma {:induction false} MakesFromRoom(fs: Tree, limit: nat, dir: Path, n: nat, m: nat)
    requires WellFormed(fs) && IsPath(dir) && n <= m <= |dir| && RoomAfter(fs, limit, dir, n)
    ensures var made := MakeDirs(fs, limit, dir[..m]);
            && made.1.None? && Realpath(made.0, limit, dir[..m]).Success?
            && var end := Realpath(made.0, limit, dir[..m]).value;
               && At(made.0, end) == Some(Dir) && (m < |dir| ==> At(made.0, end + [dir[m]]).None?)
               && (m > n ==> end !in fs && end != [] && forall p :: p in made.0 && p !in fs ==> |p| <= |end|)
    decreases m
  {
    hide WellFormed, IsName, MakeLast;
    if m > n {
      MissingBehind(fs, limit, dir, n, m);
      MakesFromRoom(fs, limit, dir, n, m - 1);
      assert Parent(dir[..m]) == dir[..m - 1];
      var made := MakeDirs(fs, limit, dir[..m - 1]).0;
      var parent := Realpath(made, limit, dir[..m - 1]).value;
      RoomForLast(fs, made, limit, dir, n, m, parent);
    }
  }

  lemma RoomForLast(fs: Tree, made: Tree, limit: nat, dir: Path, n: nat, m: nat, parent: Path)
    requires WellFormed(fs) && IsPath(dir) && n < m <= |dir| && RoomAfter(fs, limit, dir, n)
    requires Realpath(made, limit, dir[..m - 1]) == Success(parent) && At(made, parent) == Some(Dir) && At(made, parent + [dir[m - 1]]).None?
    requires if m - 1 == n then made == fs else parent !in fs && parent != [] && forall p :: p in made && p !in fs ==> |p| <= |parent|
    ensures var last, end := MakeLast(made, limit, dir[..m]), parent + [dir[m - 1]];
            && last.1.None? && Realpath(last.0, limit, dir[..m]) == Success(end)
            && At(last.0, end) == Some(Dir) && (m < |dir| ==> At(last.0, end + [dir[m]]).None?)
            && end !in fs && forall p :: p in last.0 && p !in fs ==> |p| <= |end|
  {
    hide Realpath, IsName;
    var path, end := dir[..m], parent + [dir[m - 1]];
    assert Parent(path) == dir[..m - 1] && path[|path| - 1] == dir[m - 1];
    MadeLastIsThere(made, limit, path);
    assert Parent(end) == parent;
    assert end !in fs;
    if m < |dir| {
      var below := end + [dir[m]];
      assert Parent(below) == end;
      assert below !in fs;
      assert |below| > |end|;
    }
  }

  /** Directories are made exactly where there is room for them. */
  lemma MakesDirsIff(fs: Tree, limit: nat, dir: Path)
    requires WellFormed(fs) && IsPath(dir)
    ensures MakeDirs(fs, limit, dir).1.None? <==> CanMake(fs, limit, dir)
  {
    hide WellFormed;
    assert dir[..|dir|] == dir;
    if CanMake(fs, limit, dir) {
      var n :| 0 <= n <= |dir| && RoomAfter(fs, limit, dir, n);
      MakesFromRoom(fs, limit, dir, n, |dir|);
    } else if MakeDirs(fs, limit, dir).1.None? {
      MakesInRoom(fs, limit, dir);
    }
  }

  lemma {:induction false} MakesInRoom(fs: Tree, limit: nat, dir: Path)
    requires WellFormed(fs) && IsPath(dir) && MakeDirs(fs, limit, dir).1.None?
    ensures CanMake(fs, limit, dir)
    decreases |dir|
  {
    hide WellFormed, Realpath;
    assert dir[..|dir|] == dir;
    if Realpath(fs, limit, dir).Success? {
      assert RoomAfter(fs, limit, dir, |dir|);
    } else {
      var parent := Parent(dir);
      MakesInRoom(fs, limit, parent);
      var n :| 0 <= n <= |parent| && RoomAfter(fs, limit, parent, n);
      assert parent[..n] == dir[..n];
      if n == |parent| {
        assert parent[..n] == parent;
        assert MakeDirs(fs, limit, parent) == (fs, None);
      }
      assert RoomAfter(fs, limit, dir, n);
    }
  }

  // ---- the guard

  datatype WriteError = OutsideRoot(resolved: Path) | SystemError(errno: Errno)

  /** assertDirectoryWithin, once the root is resolved. */
  function DirectoryProblem(fs: Tree, limit: nat, realRoot: Result<Path, Errno>, dir: seq<string>): Option<WriteError> {
    if realRoot.Failure? then Some(SystemError(realRoot.error))
    else
      var resolved := Resolve(fs, limit, dir);
      if resolved.Failure? then Some(SystemError(resolved.error))
      else if IsPathWithin(realRoot.value, resolved.value) then None
      else Some(OutsideRoot(resolved.value))
  }

  /** ensureDir on a directory not checked yet: check, create, check again. */
  function EnsuredDir(fs: Tree, limit: nat, realRoot: Result<Path, Errno>, dir: Path): (r: (Tree, Option<WriteError>)) {
    var problem := DirectoryProblem(fs, limit, realRoot, dir);
    if problem.Some? then (fs, problem)
    else
      var made := MakeDirs(fs, limit, dir);
      if made.1.Some? then (made.0, Some(SystemError(made.1.value)))
      else (made.0, DirectoryProblem(made.0, limit, realRoot, dir))
  }

  /** What prepareFile does once the directory is there: removes what is neither a file nor a directory. */
  function ClearedFile(fs: Tree, limit: nat, file: Path): (r: (Tree, Option<WriteError>))
    requires file != []
  {
    var stat := Lstat(fs, limit, file);
    if stat.Failure? then (fs, if IsMissing(stat.error) then None else Some(SystemError(stat.error)))
    else if stat.value.File? || stat.value.Dir? then (fs, None)
    else
      var removed := Unlink(fs, limit, file);
      if removed.Failure? then (fs, Some(SystemError(removed.error))) else (removed.value, None)
  }

  // ---- what a passed check guarantees

  ghost predicate IsTree(fs: Tree, limit: nat) {
    limit <= MAX_SYMLINK_HOPS && WellFormed(fs) && ProperTargets(fs)
  }

  lemma ResolvedRoot(fs: Tree, limit: nat, root: seq<string>)
    requires IsTree(fs, limit) && IsComponents(root) && Resolve(fs, limit, root).Success?
    ensures IsPath(Resolve(fs, limit, root).value)
  {
    ResolveIsStable(fs, limit, root);
  }

  lemma CheckedIsInside(fs: Tree, limit: nat, realRoot: Result<Path, Errno>, dir: Path)
    requires IsTree(fs, limit) && IsPath(dir) && (realRoot.Success? ==> IsPath(realRoot.value))
    requires DirectoryProblem(fs, limit, realRoot, dir).None?
    ensures realRoot.Success? && Resolve(fs, limit, dir).Success?
    ensures Walk(fs, [], dir, MAX_SYMLINK_HOPS).Success? && Walk(fs, [], dir, MAX_SYMLINK_HOPS).value.path == Resolve(fs, limit, dir).value
    ensures realRoot.value <= Resolve(fs, limit, dir).value
  {
    ResolveIsStable(fs, limit, dir);
    ResolveIsWalk(fs, limit, dir);
    WithinIsPrefix(realRoot.value, Resolve(fs, limit, dir).value);
  }

  /** What ensureDir creates: directories, each inside the real root or on the way to it. */
  lemma CreatesInside(fs: Tree, limit: nat, realRoot: Result<Path, Errno>, dir: Path)
    requires IsTree(fs, limit) && IsPath(dir) && (realRoot.Success? ==> IsPath(realRoot.value))
    ensures var ensured := EnsuredDir(fs, limit, realRoot, dir).0;
            && IsTree(ensured, limit) && AddsDirs(ensured, fs)
            && forall p :: p in ensured && p !in fs ==> realRoot.Success? && (realRoot.value <= p || p <= realRoot.value)
  {
    hide WellFormed, ProperTargets, Walk, Resolve, MakeDirs;
    if DirectoryProblem(fs, limit, realRoot, dir).None? {
      CheckedIsInside(fs, limit, realRoot, dir);
      MakesDirsOnTheWay(fs, limit, dir);
      var made, end := MakeDirs(fs, limit, dir).0, Walk(fs, [], dir, MAX_SYMLINK_HOPS).value.path;
      forall p | p in made && p !in fs ensures realRoot.value <= p || p <= realRoot.value {
        PrefixesCompare(realRoot.value, p, end);
      }
    }
  }

  lemma PrefixesCompare(a: Path, b: Path, end: Path)
    requires a <= end && b <= end
    ensures a <= b || b <= a
  {
  }

  /** The second check never fails when nothing else changes the file system. */
  lemma SecondCheckPasses(fs: Tree, limit: nat, realRoot: Result<Path, Errno>, dir: Path)
    requires IsTree(fs, limit) && IsPath(dir) && (realRoot.Success? ==> IsPath(realRoot.value))
    requires DirectoryProblem(fs, limit, realRoot, dir).None? && MakeDirs(fs, limit, dir).1.None?
    ensures EnsuredDir(fs, limit, realRoot, dir).1.None?
  {
    hide WellFormed, ProperTargets, Walk, MakeDirs, Realpath;
    CheckedIsInside(fs, limit, realRoot, dir);
    MakesDirsOnTheWay(fs, limit, dir);
    var made := MakeDirs(fs, limit, dir).0;
    DirsKeepWalk(fs, made, [], dir, MAX_SYMLINK_HOPS);
    WritesLandWhereResolved(made, limit, dir);
  }

  /** The path leads to a directory inside the real root. */
  ghost predicate IsReady(fs: Tree, limit: nat, realRoot: Path, dir: Path) {
    var found := Realpath(fs, limit, dir);
    found.Success? && At(fs, found.value) == Some(Dir) && realRoot <= found.value
  }

  /** The root and the path resolve, the path inside the root. */
  ghost predicate ResolvesInside(fs: Tree, limit: nat, realRoot: Result<Path, Errno>, dir: seq<string>) {
    realRoot.Success? && Resolve(fs, limit, dir).Success? && realRoot.value <= Resolve(fs, limit, dir).value
  }

  /** A directory is refused exactly when the root or the path does not resolve, with that error, or the path resolves outside the root. */
  lemma RefusedIff(fs: Tree, limit: nat, realRoot: Result<Path, Errno>, dir: seq<string>)
    requires IsTree(fs, limit) && IsComponents(dir) && (realRoot.Success? ==> IsPath(realRoot.value))
    ensures var problem := DirectoryProblem(fs, limit, realRoot, dir);
            && (problem.None? <==> ResolvesInside(fs, limit, realRoot, dir))
            && (realRoot.Failure? ==> problem == Some(SystemError(realRoot.error)))
            && (realRoot.Success? && Resolve(fs, limit, dir).Failure? ==> problem == Some(SystemError(Resolve(fs, limit, dir).error)))
            && (realRoot.Success? && Resolve(fs, limit, dir).Success? && !ResolvesInside(fs, limit, realRoot, dir) ==>
                  problem == Some(OutsideRoot(Resolve(fs, limit, dir).value)))
  {
    hide Resolve, IsPathWithin, WellFormed, ProperTargets;
    if realRoot.Success? && Resolve(fs, limit, dir).Success? {
      ResolvedRoot(fs, limit, dir);
      WithinIsPrefix(realRoot.value, Resolve(fs, limit, dir).value);
    }
  }

  /** ensureDir succeeds exactly when the path resolves inside the root and directories can be made along it; then the directory is there. */
  lemma EnsuredIff(fs: Tree, limit: nat, realRoot: Result<Path, Errno>, dir: Path)
    requires IsTree(fs, limit) && IsPath(dir) && (realRoot.Success? ==> IsPath(realRoot.value))
    ensures var ensured := EnsuredDir(fs, limit, realRoot, dir);
            && (ensured.1.None? <==> ResolvesInside(fs, limit, realRoot, dir) && CanMake(fs, limit, dir))
            && (ensured.1.None? ==> realRoot.Success? && IsReady(ensured.0, limit, realRoot.value, dir))
  {
    hide ProperTargets, Walk, MakeDirs, Realpath, DirectoryProblem, ResolvesInside, CanMake, WellFormed;
    MakesDirsIff(fs, limit, dir);
    RefusedIff(fs, limit, realRoot, dir);
    if DirectoryProblem(fs, limit, realRoot, dir).None? && CanMake(fs, limit, dir) {
      SecondCheckPasses(fs, limit, realRoot, dir);
      MadeIsThere(fs, limit, dir);
      CreatesInside(fs, limit, realRoot, dir);
      CheckedIsInside(EnsuredDir(fs, limit, realRoot, dir).0, limit, realRoot, dir);
    }
  }

  /** Clearing fails exactly when the file cannot be looked at for another reason than that it, or the way to it, is missing. */
  lemma ClearedIff(fs: Tree, limit: nat, file: Path)
    requires file != []
    ensures var stat, cleared := Lstat(fs, limit, file), ClearedFile(fs, limit, file);
            && (cleared.1.None? <==> stat.Success? || stat.error == ENOENT || stat.error == ENOTDIR)
            && (stat.Failure? || stat.value == File || stat.value == Dir ==> cleared.0 == fs)
            && (cleared.1.Some? ==> stat.Failure? && cleared.1.value == SystemError(stat.error))
  {
  }

  /** In a directory that is there, a file can always be cleared. */
  lemma ReadyIsCleared(fs: Tree, limit: nat, realRoot: Path, file: Path)
    requires file != [] && IsReady(fs, limit, realRoot, Parent(file))
    ensures ClearedFile(fs, limit, file).1.None?
  {
    hide Realpath;
    ClearedIff(fs, limit, file);
  }

  /** Nothing is there, or a file or a directory. */
  predicate IsClear(fs: Tree, p: Path) {
    At(fs, p).None? || At(fs, p).value.File? || At(fs, p).value.Dir?
  }

  /** Clearing the file takes away at most the node at its name, and leaves nothing but a file or a directory there. */
  lemma ClearedHasNoLink(fs: Tree, limit: nat, file: Path)
    requires WellFormed(fs) && file != [] && ClearedFile(fs, limit, file).1.None?
    ensures var cleared := ClearedFile(fs, limit, file).0;
            && Extends(fs, cleared)
            && (Realpath(fs, limit, Parent(file)).Success? ==>
                  IsClear(cleared, Realpath(fs, limit, Parent(file)).value + [file[|file| - 1]]))
  {
    hide WellFormed, OsWalk;
    if Realpath(fs, limit, Parent(file)).Success? {
      var dir, c := Realpath(fs, limit, Parent(file)).value, file[|file| - 1];
      assert Parent(dir + [c]) == dir;
      if At(fs, dir + [c]).Some? {
        ParentIsDir(fs, dir + [c]);
      }
    }
  }

  /** A write through a cleared file lands in the directory its parent resolves to. */
  lemma ClearedWriteLands(fs: Tree, limit: nat, file: Path)
    requires WellFormed(fs) && file != [] && IsPath(file) && ClearedFile(fs, limit, file).1.None?
    requires WriteLandsAt(ClearedFile(fs, limit, file).0, limit, file).Success?
    ensures Realpath(fs, limit, Parent(file)).Success?
    ensures WriteLandsAt(ClearedFile(fs, limit, file).0, limit, file).value
         == Realpath(fs, limit, Parent(file)).value + [file[|file| - 1]]
    ensures IsClear(ClearedFile(fs, limit, file).0, WriteLandsAt(ClearedFile(fs, limit, file).0, limit, file).value)
  {
    hide ClearedFile, WellFormed;
    var cleared, c := ClearedFile(fs, limit, file).0, file[|file| - 1];
    assert file == Parent(file) + [c] && IsName(c);
    OsWalkSnoc(cleared, true, [], Parent(file), c, limit);
    ClearedHasNoLink(fs, limit, file);
    MoreNodesSameWalk(cleared, fs, [], Parent(file), limit);
    var place := OsWalk(cleared, false, [], Parent(file), limit).value;
    LastStep(cleared, place.path, c, place.left);
  }

  lemma LastStep(fs: Tree, at: Path, c: string, left: nat)
    requires IsName(c) && !IsLink(fs, at + [c]) && OsWalk(fs, true, at, [c], left).Success?
    ensures OsWalk(fs, true, at, [c], left).value.path == at + [c]
  {
    assert [c][1..] == [];
  }

  /**
   Guarded writes stay inside: once the directory of a file passed the check in `fs` and the file was cleared, a write
   through the file lands inside the real root or nowhere.
   */
  lemma GuardedWriteStaysInside(fs: Tree, limit: nat, realRoot: Result<Path, Errno>, file: Path)
    requires IsTree(fs, limit) && file != [] && IsPath(file) && (realRoot.Success? ==> IsPath(realRoot.value))
    requires DirectoryProblem(fs, limit, realRoot, Parent(file)).None? && ClearedFile(fs, limit, file).1.None?
    ensures realRoot.Success?
    ensures var landing := WriteLandsAt(ClearedFile(fs, limit, file).0, limit, file);
            landing.Success? ==>
              realRoot.value <= landing.value && IsPathWithin(realRoot.value, landing.value) && IsClear(ClearedFile(fs, limit, file).0, landing.value)
  {
    hide WellFormed, ProperTargets, Walk, ClearedFile, IsPathWithin, WriteLandsAt, Realpath, DirectoryProblem, IsClear;
    ParentIsPath(file);
    CheckedIsInside(fs, limit, realRoot, Parent(file));
    var landing := WriteLandsAt(ClearedFile(fs, limit, file).0, limit, file);
    if landing.Success? {
      ClearedWriteLands(fs, limit, file);
      var parent := Realpath(fs, limit, Parent(file)).value;
      assert parent == Resolve(fs, limit, Parent(file)).value;
      ResolvedIsPath(fs, limit, Parent(file));
      JoinedIsPath(parent, file);
      assert realRoot.value <= parent <= landing.value;
      WithinIsPrefix(realRoot.value, landing.value);
    }
  }

  /** The way to the directory of the file goes through the symlink that stands where the file is to be written. */
  predicate LeadsThroughItself(fs: Tree, limit: nat, file: Path)
    requires file != []
  {
    var dir := Realpath(fs, limit, Parent(file));
    dir.Success? && FollowsLink(fs, [], Parent(file), limit, dir.value + [file[|file| - 1]])
  }

  /**
   With its directory there and the file cleared, the file can be written, unless the way to the directory went through the
   very symlink that was removed.
   */
  lemma ClearedCanBeWritten(fs: Tree, limit: nat, file: Path)
    requires WellFormed(fs) && file != [] && IsPath(file) && ClearedFile(fs, limit, file).1.None?
    requires Realpath(fs, limit, Parent(file)).Success? && At(fs, Realpath(fs, limit, Parent(file)).value) == Some(Dir)
    ensures WriteLandsAt(ClearedFile(fs, limit, file).0, limit, file).Success? <==> !LeadsThroughItself(fs, limit, file)
  {
    hide WellFormed;
    var cleared, dir, c := ClearedFile(fs, limit, file).0, Realpath(fs, limit, Parent(file)).value, file[|file| - 1];
    var target := dir + [c];
    assert file == Parent(file) + [c] && IsName(c) && [c][1..] == [];
    OsWalkSnoc(cleared, true, [], Parent(file), c, limit);
    if cleared == fs {
      NotFollowed(fs, [], Parent(file), limit, target);
    } else {
      assert cleared == fs - {target};
      WalkWithout(fs, [], Parent(file), limit, target);
    }
  }

  /**
   There is such a file: `x` in `out` is a symlink to `out` itself, and out/x/x is to be written. The symlink is in the way of
   the file and on the way to it; when it is gone there is no out/x to write the file into.
   */
  lemma SymlinkOnItsOwnWay(limit: nat)
    requires limit > 0
    ensures var fs, file: Path := map[["out"] := Dir, ["out", "x"] := Link(false, ["."])], ["out", "x", "x"];
            && Realpath(fs, limit, Parent(file)) == Success(["out"]) && LeadsThroughItself(fs, limit, file)
            && ClearedFile(fs, limit, file) == (map[["out"] := Dir], None)
            && WriteLandsAt(map[["out"] := Dir], limit, file) == Failure(ENOENT)
  {
    var x: Node := Link(false, ["."]);
    var fs: Tree, file: Path, out: Path := map[["out"] := Dir, ["out", "x"] := x], ["out", "x", "x"], ["out"];
    assert Parent(file) == ["out", "x"] && [] + ["out"] == out && out + ["x"] == ["out", "x"];
    assert ["out", "x"][1..] == ["x"] && ["x"][1..] == [] && ["."] + [] == ["."] && ["."][1..] == [];
    assert At(fs, out) == Some(Dir) && At(fs, ["out", "x"]) == Some(x);
    assert OsWalk(fs, false, out, ["."], limit - 1) == Success(Place(out, limit - 1));
    assert OsWalk(fs, false, out, ["x"], limit) == OsWalk(fs, false, out, ["."], limit - 1);
    assert FollowsLink(fs, out, ["x"], limit, ["out", "x"]);
    var less: Tree := map[["out"] := Dir];
    assert fs - {["out", "x"]} == less;
    assert file[1..] == ["x", "x"] && At(less, ["out", "x"]).None?;
    assert OsWalk(less, true, out, ["x", "x"], limit) == Failure(ENOENT);
  }

  /** What is no symlink is not followed. */
  lemma {:induction false} NotFollowed(fs: Tree, at: Path, pending: seq<string>, left: nat, p: Path)
    ensures FollowsLink(fs, at, pending, left, p) ==> IsLink(fs, p)
    decreases left, |pending|
  {
    if pending != [] && At(fs, at) == Some(Dir) {
      var rest, next := pending[1..], at + [pending[0]];
      if pending[0] == "." {
        NotFollowed(fs, at, rest, left, p);
      } else if pending[0] == ".." {
        NotFollowed(fs, Parent(at), rest, left, p);
      } else if IsLink(fs, next) {
        if next != p && left > 0 {
          NotFollowed(fs, Start(at, At(fs, next).value), At(fs, next).value.target + rest, left - 1, p);
        }
      } else if At(fs, next).Some? {
        NotFollowed(fs, next, rest, left, p);
      }
    }
  }

  lemma ResolvedIsPath(fs: Tree, limit: nat, dir: Path)
    requires IsTree(fs, limit) && IsPath(dir) && Resolve(fs, limit, dir).Success?
    ensures IsPath(Resolve(fs, limit, dir).value)
  {
    ResolveIsStable(fs, limit, dir);
  }

  lemma JoinedIsPath(parent: Path, file: Path)
    requires IsPath(parent) && IsPath(file) && file != []
    ensures IsPath(parent + [file[|file| - 1]])
  {
  }

  lemma EnsuredIsChecked(fs: Tree, limit: nat, realRoot: Result<Path, Errno>, dir: Path)
    requires EnsuredDir(fs, limit, realRoot, dir).1.None?
    ensures DirectoryProblem(EnsuredDir(fs, limit, realRoot, dir).0, limit, realRoot, dir).None?
  {
    hide DirectoryProblem, MakeDirs;
  }

  /** Clearing removes nothing but what is in the way, and adds nothing. */
  lemma ClearedRemoves(fs: Tree, limit: nat, file: Path)
    requires file != []
    ensures var cleared := ClearedFile(fs, limit, file).0;
            && (forall p :: p in cleared ==> p in fs && cleared[p] == fs[p])
            && forall p :: p in fs && p !in cleared ==> !fs[p].File? && !fs[p].Dir?
  {
    hide Realpath;
  }

  // ---- the classes

  /** The disk: a file system that follows at most `limit` symlinks. */
  class Disk {
    const limit: nat
    var nodes: Tree

    constructor (limit: nat, nodes: Tree)
      ensures this.limit == limit && this.nodes == nodes
    {
      this.limit, this.nodes := limit, nodes;
    }

    method Mkdir(dir: Path) returns (error: Option<Errno>)
      modifies this
      ensures (nodes, error) == MakeDirs(old(nodes), limit, dir)
    {
      var made := MakeDirs(nodes, limit, dir);
      nodes, error := made.0, made.1;
    }

    method Remove(file: Path) returns (error: Option<Errno>)
      requires file != []
      modifies this
      ensures var removed := Unlink(old(nodes), limit, file);
              if removed.Success? then nodes == removed.value && error == None else nodes == old(nodes) && error == Some(removed.error)
    {
      var removed := Unlink(nodes, limit, file);
      if removed.Success? {
        nodes, error := removed.value, None;
      } else {
        error := Some(removed.error);
      }
    }
  }

  /** Checks for many writes into one root: the real root is computed once, and each directory is checked once. */
  class WriteContainment {
    const disk: Disk
    const root: seq<string>
    var realRoot: Option<Result<Path, Errno>>
    var checkedDirs: map<Path, Option<WriteError>>

    constructor (disk: Disk, root: seq<string>)
      ensures this.disk == disk && this.root == root && realRoot == None && checkedDirs == map[]
    {
      this.disk, this.root, realRoot, checkedDirs := disk, root, None, map[];
    }

    ghost predicate Valid()
      reads this, disk
    {
      && IsTree(disk.nodes, disk.limit) && IsComponents(root)
      && (realRoot.Some? && realRoot.value.Success? ==> IsPath(realRoot.value.value))
    }

    /** The real root, once it was computed or as it would be now. */
    function RealRoot(): Result<Path, Errno>
      reads this, disk
    {
      if realRoot.Some? then realRoot.value else Resolve(disk.nodes, disk.limit, root)
    }

    method GetRealRoot() returns (r: Result<Path, Errno>)
      requires Valid()
      modifies this`realRoot
      ensures Valid() && r == old(RealRoot()) && realRoot == Some(r)
      ensures old(realRoot).Some? ==> realRoot == old(realRoot)
      ensures old(realRoot).None? ==> r == Resolve(disk.nodes, disk.limit, root)
    {
      if realRoot.None? {
        var resolved := ResolvePhysicalPath(disk.nodes, disk.limit, root);
        if resolved.Success? {
          ResolvedRoot(disk.nodes, disk.limit, root);
        }
        realRoot := Some(resolved);
      }
      r := realRoot.value;
    }

    method AssertDirectoryWithin(dir: Path) returns (error: Option<WriteError>)
      requires Valid() && IsPath(dir)
      modifies this`realRoot
      ensures Valid() && realRoot == Some(old(RealRoot()))
      ensures error == DirectoryProblem(disk.nodes, disk.limit, old(RealRoot()), dir)
      ensures error.None? <==> ResolvesInside(disk.nodes, disk.limit, old(RealRoot()), dir)
    {
      var found := GetRealRoot();
      RefusedIff(disk.nodes, disk.limit, found, dir);
      if found.Failure? {
        return Some(SystemError(found.error));
      }
      var resolved := ResolvePhysicalPath(disk.nodes, disk.limit, dir);
      if resolved.Failure? {
        return Some(SystemError(resolved.error));
      }
      error := if IsPathWithin(found.value, resolved.value) then None else Some(OutsideRoot(resolved.value));
    }

    /** Checks `dir`, creates it and checks it again; done once per directory, whatever came of it. */
    method EnsureDir(dir: Path) returns (error: Option<WriteError>)
      requires Valid() && IsPath(dir)
      modifies this, disk
      ensures Valid()
      ensures dir in old(checkedDirs) ==>
                && error == old(checkedDirs)[dir] && disk.nodes == old(disk.nodes)
                && checkedDirs == old(checkedDirs) && realRoot == old(realRoot)
      ensures dir !in old(checkedDirs) ==>
                && realRoot == Some(old(RealRoot())) && checkedDirs == old(checkedDirs)[dir := error]
                && (disk.nodes, error) == EnsuredDir(old(disk.nodes), disk.limit, old(RealRoot()), dir)
      ensures dir !in old(checkedDirs) ==>
                && (error.None? <==> ResolvesInside(old(disk.nodes), disk.limit, old(RealRoot()), dir) && CanMake(old(disk.nodes), disk.limit, dir))
                && (error.None? ==> realRoot.value.Success? && IsReady(disk.nodes, disk.limit, realRoot.value.value, dir))
    {
      if dir in checkedDirs {
        return checkedDirs[dir];
      }
      error := AssertDirectoryWithin(dir);
      CreatesInside(disk.nodes, disk.limit, realRoot.value, dir);
      EnsuredIff(disk.nodes, disk.limit, realRoot.value, dir);
      if error.None? {
        var failed := disk.Mkdir(dir);
        if failed.Some? {
          error := Some(SystemError(failed.value));
        } else {
          error := AssertDirectoryWithin(dir);
        }
      }
      checkedDirs := checkedDirs[dir := error];
    }

    /**
     Makes `file` ready to be written. On a directory not checked before, a call that returns without an error guarantees that
     a write through `file` lands inside the real root - or nowhere, if the way to its directory went through the symlink that
     was in the way of the file -, and every directory it created lies inside the real root or on the
     way to it. Nothing but what is in the way of the file is removed.
     */
    method PrepareFile(file: Path) returns (error: Option<WriteError>)
      requires Valid() && IsPath(file) && file != []
      modifies this, disk
      ensures forall p :: p in old(disk.nodes) && p !in disk.nodes ==> !old(disk.nodes)[p].File? && !old(disk.nodes)[p].Dir?
      ensures Parent(file) !in old(checkedDirs) ==>
                var ensured := EnsuredDir(old(disk.nodes), disk.limit, old(RealRoot()), Parent(file));
                (disk.nodes, error) == if ensured.1.Some? then ensured else ClearedFile(ensured.0, disk.limit, file)
      ensures Parent(file) !in old(checkedDirs) ==>
                && realRoot == Some(old(RealRoot()))
                && (error.None? <==>
                      ResolvesInside(old(disk.nodes), disk.limit, old(RealRoot()), Parent(file)) && CanMake(old(disk.nodes), disk.limit, Parent(file)))
                && (forall p :: p in disk.nodes && p !in old(disk.nodes) ==>
                      disk.nodes[p] == Dir && realRoot.value.Success? && (realRoot.value.value <= p || p <= realRoot.value.value))
                && (error.None? ==> realRoot.value.Success?)
                && (error.None? && WriteLandsAt(disk.nodes, disk.limit, file).Success? ==>
                      && IsPathWithin(realRoot.value.value, WriteLandsAt(disk.nodes, disk.limit, file).value)
                      && IsClear(disk.nodes, WriteLandsAt(disk.nodes, disk.limit, file).value))
                && (error.None? ==> (WriteLandsAt(disk.nodes, disk.limit, file).Success? <==>
                      !LeadsThroughItself(EnsuredDir(old(disk.nodes), disk.limit, old(RealRoot()), Parent(file)).0, disk.limit, file)))
      ensures Parent(file) in old(checkedDirs) ==>
                if old(checkedDirs)[Parent(file)].Some? then error == old(checkedDirs)[Parent(file)] && disk.nodes == old(disk.nodes)
                else (disk.nodes, error) == ClearedFile(old(disk.nodes), disk.limit, file)
    {
      hide EnsuredDir, WriteLandsAt, Realpath, Resolve, Lstat, Unlink, IsPathWithin, IsClear, LeadsThroughItself, CanMake, ResolvesInside, IsReady, WellFormed, ProperTargets;
      ParentIsPath(file);
      ghost var before, unchecked := disk.nodes, Parent(file) !in checkedDirs;
      error := EnsureDir(Parent(file));
      if unchecked {
        CreatesInside(before, disk.limit, realRoot.value, Parent(file));
      }
      if error.Some? {
        return;
      }
      ghost var checked := disk.nodes;
      if unchecked {
        ReadyIsCleared(checked, disk.limit, realRoot.value.value, file);
      }
      ClearedRemoves(checked, disk.limit, file);
      var stat := Lstat(disk.nodes, disk.limit, file);
      if stat.Failure? {
        error := if IsMissing(stat.error) then None else Some(SystemError(stat.error));
      } else if !stat.value.File? && !stat.value.Dir? {
        var failed := disk.Remove(file);
        error := if failed.None? then None else Some(SystemError(failed.value));
      }
      assert (disk.nodes, error) == ClearedFile(checked, disk.limit, file);
      if error.None? && unchecked {
        EnsuredIsChecked(before, disk.limit, realRoot.value, Parent(file));
        GuardedWriteStaysInside(checked, disk.limit, realRoot.value, file);
        ClearedCanBeWritten(checked, disk.limit, file);
      }
    }
  }
}
