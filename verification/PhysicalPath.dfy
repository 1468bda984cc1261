/** Resolving a path to where the operating system would open or create it, for paths that do not exist as well. */
module PhysicalPath {
  import opened FileTree
  import opened Wrappers

  const MAX_SYMLINK_HOPS := 40

  // ---- the component walk

  /** The walk of resolvePhysicalPath: it follows symlinks, keeps what does not exist, and looks at nothing else. */
  function Walk(fs: Tree, at: Path, pending: seq<string>, left: nat): Result<Place, Errno>
    decreases left, |pending|
  {
    if pending == [] then Success(Place(at, left))
    else
      var component, rest := pending[0], pending[1..];
      if component == "." then Walk(fs, at, rest, left)
      else if component == ".." then Walk(fs, Parent(at), rest, left)
      else
        var next := at + [component];
        if !IsLink(fs, next) then Walk(fs, next, rest, left)
        else if left == 0 then Failure(ELOOP)
        else Walk(fs, Start(at, At(fs, next).value), At(fs, next).value.target + rest, left - 1)
  }

  /** realpath where it succeeds, else the walk. */
  function Resolve(fs: Tree, limit: nat, file: seq<string>): Result<Path, Errno> {
    var found := Realpath(fs, limit, file);
    if found.Success? then found
    else
      var place :- Walk(fs, [], file, MAX_SYMLINK_HOPS);
      Success(place.path)
  }

  /** No prefix of p is a symlink. */
  ghost predicate IsPhysical(fs: Tree, p: Path) {
    forall n :: 0 <= n <= |p| ==> !IsLink(fs, p[..n])
  }

  lemma PhysicalParent(fs: Tree, p: Path)
    requires IsPhysical(fs, p)
    ensures IsPhysical(fs, Parent(p))
  {
    forall n | 0 <= n <= |Parent(p)| ensures !IsLink(fs, Parent(p)[..n]) {
      assert Parent(p)[..n] == p[..n];
    }
  }

  lemma PhysicalChild(fs: Tree, p: Path, c: string)
    requires IsPhysical(fs, p) && !IsLink(fs, p + [c])
    ensures IsPhysical(fs, p + [c])
  {
    forall n | 0 <= n <= |p| + 1 ensures !IsLink(fs, (p + [c])[..n]) {
      if n <= |p| {
        assert (p + [c])[..n] == p[..n];
      } else {
        assert (p + [c])[..n] == p + [c];
      }
    }
  }

  lemma {:induction false} WalkIsPhysical(fs: Tree, at: Path, pending: seq<string>, left: nat)
    requires IsPhysical(fs, at) && Walk(fs, at, pending, left).Success?
    ensures IsPhysical(fs, Walk(fs, at, pending, left).value.path)
    decreases left, |pending|
  {
    if pending != [] {
      var component, rest := pending[0], pending[1..];
      if component == "." {
        WalkIsPhysical(fs, at, rest, left);
      } else if component == ".." {
        PhysicalParent(fs, at);
        WalkIsPhysical(fs, Parent(at), rest, left);
      } else if IsLink(fs, at + [component]) {
        var node := At(fs, at + [component]).value;
        WalkIsPhysical(fs, Start(at, node), node.target + rest, left - 1);
      } else {
        PhysicalChild(fs, at, component);
        WalkIsPhysical(fs, at + [component], rest, left);
      }
    }
  }

  /** Where the system's walk succeeds - opening or creating - the component walk ends at the same place. */
  lemma {:induction false} WalkAgrees(fs: Tree, create: bool, at: Path, pending: seq<string>, osLeft: nat, left: nat)
    requires osLeft <= left && OsWalk(fs, create, at, pending, osLeft).Success?
    ensures var place := OsWalk(fs, create, at, pending, osLeft).value;
            Walk(fs, at, pending, left) == Success(Place(place.path, place.left + (left - osLeft)))
    decreases left, |pending|
  {
    if pending != [] {
      var component, rest := pending[0], pending[1..];
      if component == "." {
        WalkAgrees(fs, create, at, rest, osLeft, left);
      } else if component == ".." {
        WalkAgrees(fs, create, Parent(at), rest, osLeft, left);
      } else {
        var node := At(fs, at + [component]);
        if node.Some? && node.value.Link? {
          WalkAgrees(fs, create, Start(at, node.value), node.value.target + rest, osLeft - 1, left - 1);
        } else if node.Some? {
          WalkAgrees(fs, create, at + [component], rest, osLeft, left);
        }
      }
    }
  }

  /**
   A write through a path lands where the path resolves to, dangling symlinks included; and so does what exists already.
   */
  lemma WritesLandWhereResolved(fs: Tree, limit: nat, file: seq<string>)
    requires limit <= MAX_SYMLINK_HOPS
    ensures WriteLandsAt(fs, limit, file).Success? ==> Resolve(fs, limit, file) == WriteLandsAt(fs, limit, file)
    ensures Realpath(fs, limit, file).Success? ==> Walk(fs, [], file, MAX_SYMLINK_HOPS).Success?
                                                   && Walk(fs, [], file, MAX_SYMLINK_HOPS).value.path == Realpath(fs, limit, file).value
  {
    if WriteLandsAt(fs, limit, file).Success? {
      WalkAgrees(fs, true, [], file, limit, MAX_SYMLINK_HOPS);
    }
    if Realpath(fs, limit, file).Success? {
      WalkAgrees(fs, false, [], file, limit, MAX_SYMLINK_HOPS);
    }
  }

  /** Resolving fails only on too many symlinks: whatever is missing is kept as it is. */
  lemma {:induction false} WalkFailsOnLoops(fs: Tree, at: Path, pending: seq<string>, left: nat)
    requires Walk(fs, at, pending, left).Failure?
    ensures Walk(fs, at, pending, left).error == ELOOP
    decreases left, |pending|
  {
    var rest, next := pending[1..], at + [pending[0]];
    if pending[0] == "." {
      WalkFailsOnLoops(fs, at, rest, left);
    } else if pending[0] == ".." {
      WalkFailsOnLoops(fs, Parent(at), rest, left);
    } else if !IsLink(fs, next) {
      WalkFailsOnLoops(fs, next, rest, left);
    } else if left > 0 {
      WalkFailsOnLoops(fs, Start(at, At(fs, next).value), At(fs, next).value.target + rest, left - 1);
    }
  }

  /** On a system with the same limit, Resolve is the component walk. */
  lemma ResolveIsWalk(fs: Tree, limit: nat, file: seq<string>)
    requires limit <= MAX_SYMLINK_HOPS && Resolve(fs, limit, file).Success?
    ensures Walk(fs, [], file, MAX_SYMLINK_HOPS).Success?
    ensures Walk(fs, [], file, MAX_SYMLINK_HOPS).value.path == Resolve(fs, limit, file).value
  {
    WritesLandWhereResolved(fs, limit, file);
  }

  /** A resolved path has no symlink in any prefix. */
  lemma ResolvedIsPhysical(fs: Tree, limit: nat, file: seq<string>)
    requires limit <= MAX_SYMLINK_HOPS && Resolve(fs, limit, file).Success?
    ensures IsPhysical(fs, Resolve(fs, limit, file).value)
  {
    ResolveIsWalk(fs, limit, file);
    assert IsPhysical(fs, []);
    WalkIsPhysical(fs, [], file, MAX_SYMLINK_HOPS);
  }

  // ---- physical paths resolve to themselves

  lemma PhysicalPrefix(fs: Tree, p: Path, n: nat)
    requires IsPhysical(fs, p) && n <= |p|
    ensures IsPhysical(fs, p[..n])
  {
    forall k | 0 <= k <= n ensures !IsLink(fs, p[..n][..k]) {
      assert p[..n][..k] == p[..k];
    }
  }

  /** Components are plain names, as a resolved path of plain components and targets has. */
  lemma {:induction false} PhysicalWalksToItself(fs: Tree, p: Path, n: nat, left: nat)
    requires IsPhysical(fs, p) && IsPath(p) && n <= |p|
    ensures Walk(fs, p[..n], p[n..], left) == Success(Place(p, left))
    decreases |p| - n
  {
    if n < |p| {
      assert p[..n] + [p[n]] == p[..n + 1] && p[n..][0] == p[n] && p[n..][1..] == p[n + 1..];
      PhysicalWalksToItself(fs, p, n + 1, left);
    } else {
      assert p[..n] == p;
    }
  }

  /** The system resolves a physical path to itself if it exists, and else reports it missing. */
  lemma {:induction false} PhysicalIsReal(fs: Tree, p: Path, n: nat, left: nat)
    requires WellFormed(fs) && IsPhysical(fs, p) && IsPath(p) && n <= |p| && At(fs, p[..n]).Some?
    ensures var r := OsWalk(fs, false, p[..n], p[n..], left);
            if At(fs, p).Some? then r == Success(Place(p, left)) else r.Failure? && IsMissing(r.error)
    decreases |p| - n
  {
    hide WellFormed, IsPhysical;
    if n < |p| {
      var next := p[..n + 1];
      assert p[..n] + [p[n]] == next && p[n..][0] == p[n] && p[n..][1..] == p[n + 1..];
      assert IsName(p[n]);
      NoLinkAt(fs, p, n + 1);
      if At(fs, p).Some? {
        PrefixExists(fs, p, n);
        PrefixExists(fs, p, n + 1);
      }
      if At(fs, p[..n]) == Some(Dir) && At(fs, next).Some? {
        PhysicalIsReal(fs, p, n + 1, left);
      }
    } else {
      assert p[..n] == p;
    }
  }

  lemma NoLinkAt(fs: Tree, p: Path, n: nat)
    requires IsPhysical(fs, p) && n <= |p|
    ensures !IsLink(fs, p[..n])
  {
  }

  lemma ParentIsDir(fs: Tree, p: Path)
    requires WellFormed(fs) && p != [] && At(fs, p).Some?
    ensures At(fs, Parent(p)) == Some(Dir)
  {
  }

  /** What leads to a node are directories. */
  lemma {:induction false} PrefixExists(fs: Tree, p: Path, n: nat)
    requires WellFormed(fs) && At(fs, p).Some? && n <= |p|
    ensures At(fs, p[..n]).Some? && (n < |p| ==> At(fs, p[..n]) == Some(Dir))
    decreases |p| - n
  {
    hide WellFormed;
    if n < |p| {
      PrefixExists(fs, p, n + 1);
      ParentIsDir(fs, p[..n + 1]);
      assert Parent(p[..n + 1]) == p[..n];
    } else {
      assert p[..n] == p;
    }
  }

  /** Targets and paths hold components as splitting on `/` gives them. */
  ghost predicate IsComponents(cs: seq<string>) {
    forall k :: 0 <= k < |cs| ==> cs[k] == "." || cs[k] == ".." || IsName(cs[k])
  }

  ghost predicate ProperTargets(fs: Tree) {
    forall p :: p in fs && fs[p].Link? ==> IsComponents(fs[p].target)
  }

  lemma {:induction false} WalkIsPath(fs: Tree, at: Path, pending: seq<string>, left: nat)
    requires ProperTargets(fs) && IsPath(at) && IsComponents(pending) && Walk(fs, at, pending, left).Success?
    ensures IsPath(Walk(fs, at, pending, left).value.path)
    decreases left, |pending|
  {
    if pending != [] {
      var component, rest := pending[0], pending[1..];
      if component == "." {
        WalkIsPath(fs, at, rest, left);
      } else if component == ".." {
        WalkIsPath(fs, Parent(at), rest, left);
      } else if IsLink(fs, at + [component]) {
        var node := At(fs, at + [component]).value;
        WalkIsPath(fs, Start(at, node), node.target + rest, left - 1);
      } else {
        WalkIsPath(fs, at + [component], rest, left);
      }
    }
  }

  /** Resolving a resolved path changes nothing. */
  lemma ResolveIsStable(fs: Tree, limit: nat, file: seq<string>)
    requires limit <= MAX_SYMLINK_HOPS && WellFormed(fs) && ProperTargets(fs) && IsComponents(file)
    requires Resolve(fs, limit, file).Success?
    ensures var p := Resolve(fs, limit, file).value; IsPath(p) && Resolve(fs, limit, p) == Success(p)
  {
    var p := Resolve(fs, limit, file).value;
    ResolveIsWalk(fs, limit, file);
    WalkIsPath(fs, [], file, MAX_SYMLINK_HOPS);
    ResolvedIsPhysical(fs, limit, file);
    PhysicalWalksToItself(fs, p, 0, MAX_SYMLINK_HOPS);
    PhysicalIsReal(fs, p, 0, limit);
    assert p[..0] == [] && p[0..] == p;
  }

  // ---- the loops

  /** realpathOfDeepestExisting: of a path without symlinks, the path itself. */
  method RealpathOfDeepestExisting(fs: Tree, limit: nat, file: Path) returns (r: Result<Path, Errno>)
    requires WellFormed(fs) && IsPhysical(fs, file) && IsPath(file)
    ensures r == Success(file)
  {
    hide WellFormed, IsPhysical;
    var rest, existing := [], file;
    while true
      invariant |existing| <= |file| && existing == file[..|existing|] && existing + rest == file
      decreases |existing|
    {
      PhysicalPrefix(fs, file, |existing|);
      PhysicalIsReal(fs, existing, 0, limit);
      assert existing[..0] == [] && existing[0..] == existing;
      var found := Realpath(fs, limit, existing);
      if found.Success? {
        return Success(found.value + rest);
      }
      if !IsMissing(found.error) || existing == Parent(existing) {
        return found;
      }
      rest := [existing[|existing| - 1]] + rest;
      existing := Parent(existing);
    }
  }

  lemma LstatOfChild(fs: Tree, limit: nat, p: Path, c: string)
    requires WellFormed(fs) && IsPhysical(fs, p) && IsPath(p) && IsName(c)
    ensures var r := Lstat(fs, limit, p + [c]);
            if r.Success? then At(fs, p + [c]) == Some(r.value) else IsMissing(r.error) && At(fs, p + [c]).None?
  {
    hide WellFormed, IsPhysical;
    var next := p + [c];
    assert Parent(next) == p && next[|next| - 1] == c;
    PhysicalIsReal(fs, p, 0, limit);
    assert p[..0] == [] && p[0..] == p;
    if At(fs, next).Some? {
      PrefixExists(fs, next, |p|);
      assert next[..|p|] == p;
    }
  }

  /** What the loop keeps: from here on the walk goes where it goes from the start, and `resolved` has no symlink in it. */
  ghost predicate OnTheWay(fs: Tree, file: seq<string>, resolved: Path, pending: seq<string>, left: nat) {
    && IsPath(resolved) && IsComponents(pending) && IsPhysical(fs, resolved)
    && Walk(fs, [], file, MAX_SYMLINK_HOPS) == Walk(fs, resolved, pending, left)
  }

  lemma StepUp(fs: Tree, file: seq<string>, resolved: Path, pending: seq<string>, left: nat)
    requires pending != [] && OnTheWay(fs, file, resolved, pending, left)
    ensures pending[0] == "." || pending[0] == ".." || IsName(pending[0])
    ensures pending[0] == "." ==> OnTheWay(fs, file, resolved, pending[1..], left)
    ensures pending[0] == ".." ==> OnTheWay(fs, file, Parent(resolved), pending[1..], left)
  {
    PhysicalParent(fs, resolved);
  }

  lemma StepInto(fs: Tree, file: seq<string>, resolved: Path, pending: seq<string>, left: nat)
    requires pending != [] && OnTheWay(fs, file, resolved, pending, left)
    requires IsName(pending[0]) && !IsLink(fs, resolved + [pending[0]])
    ensures OnTheWay(fs, file, resolved + [pending[0]], pending[1..], left)
  {
    PhysicalChild(fs, resolved, pending[0]);
  }

  lemma StepAlong(fs: Tree, file: seq<string>, resolved: Path, pending: seq<string>, left: nat)
    requires ProperTargets(fs) && pending != [] && OnTheWay(fs, file, resolved, pending, left)
    requires IsName(pending[0]) && IsLink(fs, resolved + [pending[0]])
    ensures left == 0 ==> Walk(fs, [], file, MAX_SYMLINK_HOPS) == Failure(ELOOP)
    ensures var node := At(fs, resolved + [pending[0]]).value;
            left > 0 ==> OnTheWay(fs, file, Start(resolved, node), node.target + pending[1..], left - 1)
  {
  }

  /** The symlink at this component, by lstat; what is missing is none. */
  method ReadLink(fs: Tree, limit: nat, ghost file: seq<string>, at: Path, pending: seq<string>, ghost left: nat) returns (link: Option<Node>)
    requires WellFormed(fs) && pending != [] && OnTheWay(fs, file, at, pending, left) && IsName(pending[0])
    ensures link.Some? <==> IsLink(fs, at + [pending[0]])
    ensures link.Some? ==> link == At(fs, at + [pending[0]])
  {
    LstatOfChild(fs, limit, at, pending[0]);
    var stat := Lstat(fs, limit, at + [pending[0]]);
    link := if stat.Success? && stat.value.Link? then Some(stat.value) else None;
  }

  /** A component that is a symlink: its target is put before the components still to come. None when that is one too many. */
  method Follow(fs: Tree, ghost file: seq<string>, at: Path, pending: seq<string>, link: Node, left: nat) returns (next: Option<(Path, seq<string>)>)
    requires ProperTargets(fs) && pending != [] && OnTheWay(fs, file, at, pending, left) && IsName(pending[0])
    requires IsLink(fs, at + [pending[0]]) && At(fs, at + [pending[0]]) == Some(link)
    ensures next.None? <==> left == 0
    ensures next.None? ==> Walk(fs, [], file, MAX_SYMLINK_HOPS) == Failure(ELOOP)
    ensures next.Some? ==> OnTheWay(fs, file, next.value.0, next.value.1, left - 1)
  {
    StepAlong(fs, file, at, pending, left);
    next := if left == 0 then None else Some((Start(at, link), link.target + pending[1..]));
  }

  /** What the walk returns of the place it ends at. */
  function PathOf(place: Result<Place, Errno>): Result<Path, Errno> {
    if place.Failure? then Failure(place.error) else Success(place.value.path)
  }

  /** The component walk. */
  method WalkComponents(fs: Tree, limit: nat, file: seq<string>) returns (r: Result<Path, Errno>)
    requires WellFormed(fs) && ProperTargets(fs) && IsComponents(file)
    ensures r == PathOf(Walk(fs, [], file, MAX_SYMLINK_HOPS))
    ensures r.Success? ==> IsPath(r.value) && IsPhysical(fs, r.value)
  {
    hide OnTheWay, Walk, IsLink, At, IsName, WellFormed, ProperTargets, IsPath, IsPhysical, IsComponents;
    var resolved: Path, pending, hops := [], file, 0;
    Setout(fs, file);
    while |pending| > 0
      invariant 0 <= hops <= MAX_SYMLINK_HOPS && OnTheWay(fs, file, resolved, pending, MAX_SYMLINK_HOPS - hops)
      decreases MAX_SYMLINK_HOPS - hops, |pending|
    {
      StepUp(fs, file, resolved, pending, MAX_SYMLINK_HOPS - hops);
      var component := pending[0];
      if component == "." {
        pending := pending[1..];
      } else if component == ".." {
        resolved, pending := Parent(resolved), pending[1..];
      } else {
        var link := ReadLink(fs, limit, file, resolved, pending, MAX_SYMLINK_HOPS - hops);
        if link.None? {
          StepInto(fs, file, resolved, pending, MAX_SYMLINK_HOPS - hops);
          resolved, pending := resolved + [component], pending[1..];
        } else {
          var next := Follow(fs, file, resolved, pending, link.value, MAX_SYMLINK_HOPS - hops);
          if next.None? {
            return Failure(ELOOP);
          }
          hops := hops + 1;
          resolved, pending := next.value.0, next.value.1;
        }
      }
    }
    Arrived(fs, file, resolved, MAX_SYMLINK_HOPS - hops);
    r := Success(resolved);
  }

  lemma Setout(fs: Tree, file: seq<string>)
    requires IsComponents(file)
    ensures OnTheWay(fs, file, [], file, MAX_SYMLINK_HOPS)
  {
  }

  lemma Arrived(fs: Tree, file: seq<string>, resolved: Path, left: nat)
    requires OnTheWay(fs, file, resolved, [], left)
    ensures Walk(fs, [], file, MAX_SYMLINK_HOPS) == Success(Place(resolved, left)) && IsPath(resolved) && IsPhysical(fs, resolved)
  {
  }

  /** resolvePhysicalPath on an absolute path, given as its components. */
  method ResolvePhysicalPath(fs: Tree, limit: nat, file: seq<string>) returns (r: Result<Path, Errno>)
    requires limit <= MAX_SYMLINK_HOPS && WellFormed(fs) && ProperTargets(fs) && IsComponents(file)
    ensures r == Resolve(fs, limit, file)
  {
    var found := Realpath(fs, limit, file);
    if found.Success? {
      return found;
    }
    r := WalkComponents(fs, limit, file);
    if r.Success? {
      r := RealpathOfDeepestExisting(fs, limit, r.value);
    }
  }
}
