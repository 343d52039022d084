/** What path resolution guarantees: canonical results, idempotence, termination and the guard. */
module PathResolutionTheorems {
  import opened Bytes
  import opened PathResolution
  import opened PathEditing
  import opened PathResolver
  import opened Wrappers

  // ---------------------------------------------------------------------
  // Canonical results

  /** Walking plain names from `root`; every inode passed through must be a directory. */
  function Descend(fs: Fs, root: Inode, names: seq<seq<byte>>): (r: Option<Inode>) {
    if names == [] then Some(root)
    else
      match Descend(fs, root, names[..|names| - 1])
      case None => None
      case Some(dir) =>
        if !dir.kind.Directory? then None
        else match fs.lookup(dir, names[|names| - 1])
          case Err(_) => None
          case Ok(child) => Some(child)
  }

  predicate IsPlain(name: seq<byte>) {
    IsName(name) && name != CURRENT && name != PARENT
  }

  predicate AllPlain(names: seq<seq<byte>>) {
    forall i :: 0 <= i < |names| ==> IsPlain(names[i])
  }

  /** An absolute path of plain names, without duplicate or trailing separators. */
  predicate IsCanonical(p: seq<byte>) {
    && IsAbsolute(p) && |p| <= MAX_PATH_LEN
    && NoDuplicateSep(p)
    && (|p| > 1 ==> !EndsWithSep(p))
    && AllPlain(Comps(p))
  }

  /** The invariant tying the walked names to the current inode. */
  ghost predicate Located(fs: Fs, follow: FollowSymlinks, root: Inode, s: State, steps: nat) {
    && WellFormed(s)
    && AllPlain(s.done)
    && Descend(fs, root, s.done) == Some(s.inode)
    && |s.done| <= steps
    && (s.done != [] && s.inode.kind.Symlink? ==> follow.ExcludeFinalComponent? && s.todo == [])
  }

  lemma DescendSnoc(fs: Fs, root: Inode, names: seq<seq<byte>>, name: seq<byte>, dir: Inode, child: Inode)
    requires Descend(fs, root, names) == Some(dir) && dir.kind.Directory?
    requires fs.lookup(dir, name) == Ok(child)
    ensures Descend(fs, root, names + [name]) == Some(child)
  {
    assert (names + [name])[..|names|] == names;
  }

  /** Going up by ".." leads to the inode of the shortened prefix. */
  lemma DescendParent(fs: Fs, root: Inode, s: State)
    requires Consistent(fs) && fs.root == Ok(root)
    requires AllPlain(s.done) && Descend(fs, root, s.done) == Some(s.inode) && s.inode.kind.Directory?
    ensures fs.lookup(s.inode, PARENT).Ok?
    ensures Descend(fs, root, DropLast(s.done)) == Some(fs.lookup(s.inode, PARENT).value)
    ensures DropLast(s.done) != [] ==> fs.lookup(s.inode, PARENT).value.kind.Directory?
  {
    if s.done != [] {
      var last := s.done[|s.done| - 1];
      assert IsPlain(last);
      var up := Descend(fs, root, DropLast(s.done)).value;
      assert fs.lookup(up, last) == Ok(s.inode);
    }
  }

  lemma StepKeepsLength(fs: Fs, follow: FollowSymlinks, s: State)
    requires ValidFs(fs) && s.todo != [] && WellFormed(s)
    requires Step(fs, follow, s).Continue?
    ensures WellFormed(Step(fs, follow, s).state)
  {
    hide Joined, PathOf, IndexOf, Comps, Dedup, Spliced, FindParentComponentStart;
    StopBranch(fs, follow, s);
    if s.todo[0] == CURRENT {
      CurrentBranch(fs, follow, s);
    } else if s.todo[0] == PARENT {
      ParentBranch(fs, follow, s);
    } else if AtLink(fs, follow, s) {
      LinkBranch(fs, follow, s);
    } else {
      AdvanceBranch(fs, follow, s);
    }
  }

  lemma ParentStaysLocated(fs: Fs, follow: FollowSymlinks, root: Inode, s: State, steps: nat)
    requires ValidFs(fs) && Consistent(fs) && fs.root == Ok(root)
    requires s.todo != [] && Located(fs, follow, root, s, steps)
    requires Step(fs, follow, s).Continue?
    requires s.todo[0] == PARENT
    ensures Located(fs, follow, root, Step(fs, follow, s).state, steps + 1)
  {
    hide Joined, PathOf, Comps, Spliced, WellFormed, ValidFs, Descend, IsName, FollowLink, Consistent, IsPlain;
    StepKeepsLength(fs, follow, s);
    DescendParent(fs, root, s);
    assert AllPlain(DropLast(s.done));
  }

  lemma LinkStaysLocated(fs: Fs, follow: FollowSymlinks, root: Inode, s: State, steps: nat)
    requires ValidFs(fs) && Consistent(fs) && fs.root == Ok(root)
    requires s.todo != [] && Located(fs, follow, root, s, steps)
    requires Step(fs, follow, s).Continue?
    requires s.todo[0] != CURRENT && s.todo[0] != PARENT && AtLink(fs, follow, s)
    ensures Located(fs, follow, root, Step(fs, follow, s).state, steps + 1)
  {
    hide Joined, PathOf, Comps, Spliced, WellFormed, ValidFs, IsName, Consistent;
    StepKeepsLength(fs, follow, s);
    assert Descend(fs, root, []) == Some(root);
  }

  lemma AdvanceStaysLocated(fs: Fs, follow: FollowSymlinks, root: Inode, s: State, steps: nat)
    requires ValidFs(fs) && Consistent(fs) && fs.root == Ok(root)
    requires s.todo != [] && Located(fs, follow, root, s, steps)
    requires Step(fs, follow, s).Continue?
    requires s.todo[0] != CURRENT && s.todo[0] != PARENT && !AtLink(fs, follow, s)
    ensures Located(fs, follow, root, Step(fs, follow, s).state, steps + 1)
  {
    hide Joined, PathOf, Comps, Spliced, WellFormed, ValidFs, Descend, FollowLink, Consistent, IsName;
    StepKeepsLength(fs, follow, s);
    var name := s.todo[0];
    assert IsName(name) by { NamesOf(s); }
    DescendSnoc(fs, root, s.done, name, s.inode, fs.lookup(s.inode, name).value);
  }

  lemma StepStaysLocated(fs: Fs, follow: FollowSymlinks, root: Inode, s: State, steps: nat)
    requires ValidFs(fs) && Consistent(fs) && fs.root == Ok(root)
    requires s.todo != [] && Located(fs, follow, root, s, steps)
    requires Step(fs, follow, s).Continue?
    ensures Located(fs, follow, root, Step(fs, follow, s).state, steps + 1)
  {
    hide Joined, PathOf, Comps, Spliced, WellFormed, ValidFs, Descend, FollowLink, Consistent, IsName;
    if s.todo[0] == CURRENT {
      StepKeepsLength(fs, follow, s);
    } else if s.todo[0] == PARENT {
      ParentStaysLocated(fs, follow, root, s, steps);
    } else if AtLink(fs, follow, s) {
      LinkStaysLocated(fs, follow, root, s, steps);
    } else {
      AdvanceStaysLocated(fs, follow, root, s, steps);
    }
  }

  lemma NamesOf(s: State)
    requires WellFormed(s)
    ensures AllNames(s.todo)
  {
  }

  /** What a successful resolution returns. */
  ghost predicate Canonically(fs: Fs, follow: FollowSymlinks, root: Inode, r: Outcome, limit: nat) {
    r.Resolved? ==>
      && IsCanonical(r.path)
      && Descend(fs, root, Comps(r.path)) == Some(r.inode)
      && |Comps(r.path)| <= limit
      && (|r.path| > 1 && r.inode.kind.Symlink? ==> follow.ExcludeFinalComponent?)
  }

  lemma FinishCanonical(fs: Fs, follow: FollowSymlinks, root: Inode, s: State, steps: nat)
    requires Located(fs, follow, root, s, steps) && s.todo == []
    ensures Canonically(fs, follow, root, Finish(s), steps)
  {
    hide Comps, Joined;
    var p := [SEP] + Joined(s.done, false);
    FinalPath(s);
    NamesMakePath(s.done);
    NamesAreComponents(s.done);
    PlainPathShape(s.done);
    PathLength(s);
  }

  lemma PathLength(s: State)
    requires WellFormed(s) && s.todo == []
    ensures |[SEP] + Joined(s.done, false)| <= MAX_PATH_LEN
  {
    FinalPath(s);
  }

  lemma PlainPathShape(cs: seq<seq<byte>>)
    requires AllComponents(cs)
    ensures var p := [SEP] + Joined(cs, false);
            NoDuplicateSep(p) && (|p| > 1 ==> !EndsWithSep(p)) && (|p| > 1 <==> cs != [])
  {
    JoinedNoDuplicates(cs, false);
    if cs != [] {
      JoinedFirstByte(cs, false);
      JoinedLastByte(cs, false);
    }
  }

  lemma {:induction false} JoinedNoDuplicates(cs: seq<seq<byte>>, sep: bool)
    requires AllComponents(cs)
    ensures NoDuplicateSep(Joined(cs, sep))
    decreases |cs|
  {
    if cs != [] {
      var c := cs[0];
      assert IsComponent(c);
      assert forall i :: 0 <= i < |c| ==> c[i] in c;
      if |cs| > 1 {
        JoinedNoDuplicates(cs[1..], sep);
        JoinedFirstByte(cs[1..], sep);
      }
    }
  }

  lemma {:induction false} WalkCanonical(fs: Fs, follow: FollowSymlinks, root: Inode, s: State, steps: nat, limit: nat)
    requires ValidFs(fs) && Consistent(fs) && fs.root == Ok(root)
    requires Located(fs, follow, root, s, steps) && s.links <= MAX_SYMLINKS && steps <= limit
    ensures Canonically(fs, follow, root, Walk(fs, follow, s, steps, limit), limit)
    decreases MAX_SYMLINKS - s.links, |s.todo|
  {
    hide Joined, PathOf, Comps, WellFormed, IsCanonical;
    if s.todo == [] {
      FinishCanonical(fs, follow, root, s, steps);
    } else if steps < limit && Step(fs, follow, s).Continue? {
      StepStaysLocated(fs, follow, root, s, steps);
      WalkCanonical(fs, follow, root, Step(fs, follow, s).state, steps + 1, limit);
    }
  }

  /**
   Theorem: on a consistent tree a successful resolution returns a canonical
   path that, walked name by name from the root through directories only, leads
   to the returned inode; only a final component left alone by
   ExcludeFinalComponent can be a symlink.
   */
  lemma ResolveCanonical(fs: Fs, path: seq<byte>, follow: FollowSymlinks, limit: nat)
    requires ValidFs(fs) && Consistent(fs) && IsPath(path)
    requires Resolve(fs, path, follow, limit).Resolved?
    ensures fs.root.Ok?
    ensures var r := Resolve(fs, path, follow, limit);
            && IsCanonical(r.path)
            && Descend(fs, fs.root.value, Comps(r.path)) == Some(r.inode)
            && (|r.path| > 1 && r.inode.kind.Symlink? ==> follow.ExcludeFinalComponent?)
            && |Comps(r.path)| <= limit
  {
    hide Joined, PathOf, Comps, IsCanonical;
    var root := fs.root.value;
    StartRepresents(root, path);
    assert Descend(fs, root, []) == Some(root);
    WalkCanonical(fs, follow, root, Start(root, path), 0, limit);
  }

  // ---------------------------------------------------------------------
  // Idempotence

  /** A prefix of a successful descent also succeeds, and ends in a directory unless it is all of it. */
  lemma {:induction false} DescendPrefix(fs: Fs, root: Inode, names: seq<seq<byte>>, i: nat)
    requires Descend(fs, root, names).Some? && i <= |names|
    ensures Descend(fs, root, names[..i]).Some?
    ensures i < |names| ==> Descend(fs, root, names[..i]).value.kind.Directory?
    decreases |names| - i
  {
    if i < |names| {
      DescendPrefix(fs, root, names, i + 1);
      assert names[..i + 1][..i] == names[..i];
    } else {
      assert names[..i] == names;
    }
  }

  /** Walking a path of plain names that leads nowhere through a symlink changes nothing. */
  lemma {:induction false} WalkAgain(fs: Fs, follow: FollowSymlinks, root: Inode, names: seq<seq<byte>>, i: nat, limit: nat)
    requires AllPlain(names) && i <= |names| <= limit
    requires Descend(fs, root, names).Some?
    requires names != [] && Descend(fs, root, names).value.kind.Symlink? ==> follow.ExcludeFinalComponent?
    requires Descend(fs, root, names[..i]).Some?
    ensures Walk(fs, follow, State(names[..i], Descend(fs, root, names[..i]).value, names[i..], names == [], 0), i, limit)
         == Resolved(Descend(fs, root, names).value, [SEP] + Joined(names, false))
    decreases |names| - i
  {
    hide Joined, FollowLink, IsName;
    var s := State(names[..i], Descend(fs, root, names[..i]).value, names[i..], names == [], 0);
    if i == |names| {
      assert names[..i] == names;
    } else {
      DescendPrefix(fs, root, names, i);
      DescendPrefix(fs, root, names, i + 1);
      assert IsPlain(names[i]);
      assert names[..i + 1][..i] == names[..i];
      assert names[..i + 1] == names[..i] + [names[i]];
      assert names[i..][1..] == names[i + 1..];
      if i + 1 == |names| {
        assert names[..i + 1] == names;
      }
      WalkAgain(fs, follow, root, names, i + 1, limit);
    }
  }

  /** Theorem: resolving a result again, in the same mode, returns the same inode and path. */
  lemma ResolveIdempotent(fs: Fs, path: seq<byte>, follow: FollowSymlinks)
    requires ValidFs(fs) && Consistent(fs) && IsPath(path)
    requires Resolve(fs, path, follow, 1000).Resolved?
    ensures var r := Resolve(fs, path, follow, 1000);
            IsPath(r.path) && Resolve(fs, r.path, follow, 1000) == r
  {
    hide Joined, Comps, Walk;
    var r := Resolve(fs, path, follow, 1000);
    ResolveCanonical(fs, path, follow, 1000);
    var names := Comps(r.path);
    AbsoluteCanonical(r.path);
    SepOfCanonical(r.path);
    assert names[..0] == [];
    assert names[0..] == names;
    WalkAgain(fs, follow, fs.root.value, names, 0, 1000);
    assert r.path == [SEP] + Joined(names, false);
    assert AllNames(names);
    NamesMakePath(names);
  }

  lemma SepOfCanonical(p: seq<byte>)
    requires IsCanonical(p)
    ensures EndsWithSep(p) <==> Comps(p) == []
    ensures p == [SEP] + Joined(Comps(p), false)
  {
    hide Comps;
    AbsoluteCanonical(p);
  }

  // ---------------------------------------------------------------------
  // Termination and the iteration guard

  /** The number of loop iterations when nothing limits them. */
  function Steps(fs: Fs, follow: FollowSymlinks, s: State): (n: nat)
    requires s.links <= MAX_SYMLINKS
    decreases MAX_SYMLINKS - s.links, |s.todo|
  {
    if s.todo == [] then 0
    else match Step(fs, follow, s)
      case Stop(_) => 1
      case Continue(s') => 1 + Steps(fs, follow, s')
  }

  lemma TodoFits(s: State)
    requires WellFormed(s)
    ensures |s.todo| <= 2048
  {
    if s.todo != [] {
      NamesAreComponents(s.todo);
      JoinedLength(s.todo, s.sep);
    }
  }

  lemma {:induction false} StepsBound(fs: Fs, follow: FollowSymlinks, s: State)
    requires ValidFs(fs) && WellFormed(s) && s.links <= MAX_SYMLINKS
    ensures Steps(fs, follow, s) <= |s.todo| + (MAX_SYMLINKS - s.links) * 2048
    decreases MAX_SYMLINKS - s.links, |s.todo|
  {
    hide Joined, PathOf, Comps, WellFormed;
    if s.todo != [] && Step(fs, follow, s).Continue? {
      var s' := Step(fs, follow, s).state;
      StepKeepsLength(fs, follow, s);
      StepsBound(fs, follow, s');
      TodoFits(s');
      if s'.links > s.links {
        assert (MAX_SYMLINKS - s'.links) * 2048 + 2048 <= (MAX_SYMLINKS - s.links) * 2048;
      }
    }
  }

  /** The guard trips exactly when more iterations are needed than it allows, and otherwise plays no part. */
  lemma {:induction false} GuardTrips(fs: Fs, follow: FollowSymlinks, s: State, steps: nat, limit: nat, larger: nat)
    requires s.links <= MAX_SYMLINKS && steps <= limit <= larger
    ensures Walk(fs, follow, s, steps, limit) == GuardTripped <==> steps + Steps(fs, follow, s) > limit
    ensures steps + Steps(fs, follow, s) <= limit ==>
              Walk(fs, follow, s, steps, larger) == Walk(fs, follow, s, steps, limit)
    decreases MAX_SYMLINKS - s.links, |s.todo|
  {
    hide Joined, Comps, Spliced;
    if s.todo != [] && steps < limit && Step(fs, follow, s).Continue? {
      GuardTrips(fs, follow, Step(fs, follow, s).state, steps + 1, limit, larger);
    }
  }

  /** Iterations that resolving `path` needs. */
  function Iterations(fs: Fs, path: seq<byte>, follow: FollowSymlinks): (n: nat) {
    if IsAbsolute(path) && |path| <= MAX_PATH_LEN && fs.root.Ok? then
      Steps(fs, follow, Start(fs.root.value, path))
    else 0
  }

  /**
   Theorem: without the guard, resolution ends within 41 * 2048 iterations. With
   it, resolution gives the same answer when at most 1000 are needed.
   */
  lemma ResolveTerminates(fs: Fs, path: seq<byte>, follow: FollowSymlinks, limit: nat)
    requires ValidFs(fs) && IsPath(path)
    ensures Iterations(fs, path, follow) <= 41 * 2048
    ensures Resolve(fs, path, follow, limit) == GuardTripped <==> Iterations(fs, path, follow) > limit
    ensures Iterations(fs, path, follow) <= limit <= 41 * 2048 ==>
              Resolve(fs, path, follow, limit) == Resolve(fs, path, follow, 41 * 2048)
  {
    hide Joined, Comps, Walk, Steps, PathOf;
    if IsAbsolute(path) && |path| <= MAX_PATH_LEN && fs.root.Ok? {
      var s := Start(fs.root.value, path);
      StartRepresents(fs.root.value, path);
      StepsBound(fs, follow, s);
      TodoFits(s);
      GuardTrips(fs, follow, s, 0, limit, if limit <= 41 * 2048 then 41 * 2048 else limit);
    }
  }

  /** The symlink targets that a walk follows, in order. */
  function Followed(fs: Fs, follow: FollowSymlinks, s: State): (targets: seq<seq<byte>>)
    requires s.links <= MAX_SYMLINKS
    ensures |targets| <= MAX_SYMLINKS - s.links
    decreases MAX_SYMLINKS - s.links, |s.todo|
  {
    if s.todo == [] then []
    else match Step(fs, follow, s)
      case Stop(_) => []
      case Continue(s') => FollowedNow(fs, follow, s) + Followed(fs, follow, s')
  }

  /** The target followed by the next step, if any. */
  function FollowedNow(fs: Fs, follow: FollowSymlinks, s: State): (targets: seq<seq<byte>>)
    requires s.todo != [] && Step(fs, follow, s).Continue?
    ensures s.links + |targets| == Step(fs, follow, s).state.links <= s.links + 1
  {
    if AtLink(fs, follow, s) then [fs.target(fs.lookup(s.inode, s.todo[0]).value).value] else []
  }

  /** The components of all of `targets` together. */
  function TotalComps(targets: seq<seq<byte>>): (n: nat) {
    if targets == [] then 0 else |Comps(targets[0])| + TotalComps(targets[1..])
  }

  lemma TotalCons(target: seq<byte>, rest: seq<seq<byte>>)
    ensures TotalComps([target] + rest) == |Comps(target)| + TotalComps(rest)
    ensures TotalComps([target]) == |Comps(target)|
  {
    hide Comps;
    assert ([target] + rest)[1..] == rest;
  }

  /** An iteration takes one component away and puts those of the followed target, if any, in its place. */
  lemma StepComps(fs: Fs, follow: FollowSymlinks, s: State)
    requires s.todo != [] && Step(fs, follow, s).Continue?
    ensures var s' := Step(fs, follow, s).state;
            |s'.todo| + 1 == |s.todo| + TotalComps(FollowedNow(fs, follow, s))
  {
    hide Joined, Comps, Spliced, TotalComps;
    TotalEmpty();
    if AtLink(fs, follow, s) {
      TotalCons(fs.target(fs.lookup(s.inode, s.todo[0]).value).value, []);
    }
  }

  lemma StopFails(fs: Fs, follow: FollowSymlinks, s: State)
    requires s.todo != [] && Step(fs, follow, s).Stop?
    ensures Step(fs, follow, s).outcome.Failed?
  {
  }

  lemma TotalEmpty()
    ensures TotalComps([]) == 0
  {
  }

  lemma TotalAppend(now: seq<seq<byte>>, later: seq<seq<byte>>)
    requires |now| <= 1
    ensures TotalComps(now + later) == TotalComps(now) + TotalComps(later)
  {
    hide Comps;
    if now == [] {
      assert now + later == later;
    } else {
      TotalCons(now[0], later);
    }
  }

  /**
   A walk takes at most one iteration for each component of the path and of the
   targets it follows, and exactly that many when it leads somewhere.
   */
  lemma {:induction false} StepsExact(fs: Fs, follow: FollowSymlinks, s: State, steps: nat, limit: nat)
    requires s.links <= MAX_SYMLINKS
    ensures Steps(fs, follow, s) <= |s.todo| + TotalComps(Followed(fs, follow, s))
    ensures Walk(fs, follow, s, steps, limit).Resolved? ==>
              Steps(fs, follow, s) == |s.todo| + TotalComps(Followed(fs, follow, s))
    decreases MAX_SYMLINKS - s.links, |s.todo|
  {
    hide Step, TotalComps, FollowedNow;
    if s.todo == [] {
      TotalEmpty();
    } else if Step(fs, follow, s).Continue? {
      var s' := Step(fs, follow, s).state;
      StepComps(fs, follow, s);
      StepsExact(fs, follow, s', steps + 1, limit);
      TotalAppend(FollowedNow(fs, follow, s), Followed(fs, follow, s'));
    } else {
      StopFails(fs, follow, s);
    }
  }

  /** The symlink targets followed while resolving `path`. */
  function TargetsOf(fs: Fs, path: seq<byte>, follow: FollowSymlinks): (targets: seq<seq<byte>>)
    ensures |targets| <= MAX_SYMLINKS
  {
    if IsAbsolute(path) && |path| <= MAX_PATH_LEN && fs.root.Ok? then
      Followed(fs, follow, Start(fs.root.value, path))
    else []
  }

  /** At most 1000 components in the path and the targets followed never trip the guard, wherever the path leads. */
  lemma ShortPathsNeverPanic(fs: Fs, path: seq<byte>, follow: FollowSymlinks)
    requires ValidFs(fs) && IsPath(path)
    requires |Comps(path)| + TotalComps(TargetsOf(fs, path, follow)) <= 1000
    ensures Resolve(fs, path, follow, 1000) != GuardTripped
  {
    hide Joined, Comps, Walk, Steps, PathOf, Followed, TotalComps;
    if IsAbsolute(path) && |path| <= MAX_PATH_LEN && fs.root.Ok? {
      StepsExact(fs, follow, Start(fs.root.value, path), 0, 41 * 2048);
      ResolveTerminates(fs, path, follow, 1000);
    }
  }

  /**
   Theorem: on every filesystem, a path that leads somewhere trips the guard if
   and only if it and the symlink targets followed have more than 1000 components
   together.
   */
  lemma GuardTripsExactly(fs: Fs, path: seq<byte>, follow: FollowSymlinks)
    requires ValidFs(fs) && IsPath(path)
    requires Resolve(fs, path, follow, 41 * 2048).Resolved?
    ensures Resolve(fs, path, follow, 1000) == GuardTripped
       <==> |Comps(path)| + TotalComps(TargetsOf(fs, path, follow)) > 1000
  {
    hide Joined, Comps, Walk, Steps, PathOf, Followed, TotalComps;
    StepsExact(fs, follow, Start(fs.root.value, path), 0, 41 * 2048);
    ResolveTerminates(fs, path, follow, 1000);
  }

  /** On every filesystem, a path of more than 1000 components that leads somewhere trips the guard. */
  lemma LongPathsTrip(fs: Fs, path: seq<byte>, follow: FollowSymlinks)
    requires ValidFs(fs) && IsPath(path) && Resolve(fs, path, follow, 41 * 2048).Resolved?
    requires |Comps(path)| > 1000
    ensures Resolve(fs, path, follow, 1000) == GuardTripped
  {
    hide Resolve, Comps, TargetsOf, TotalComps;
    GuardTripsExactly(fs, path, follow);
  }

  /** Every symlink target has at most `k` components. */
  ghost predicate TargetsWithin(fs: Fs, k: nat) {
    forall i :: fs.target(i).Ok? ==> |Comps(fs.target(i).value)| <= k
  }

  lemma TargetRead(fs: Fs, follow: FollowSymlinks, s: State)
    requires s.todo != [] && Step(fs, follow, s).Continue?
    ensures AtLink(fs, follow, s) ==> fs.target(fs.lookup(s.inode, s.todo[0]).value).Ok?
  {
    hide Comps, Spliced;
  }

  lemma {:induction false} FollowedWithin(fs: Fs, follow: FollowSymlinks, s: State, k: nat)
    requires TargetsWithin(fs, k) && s.links <= MAX_SYMLINKS
    ensures forall t :: t in Followed(fs, follow, s) ==> |Comps(t)| <= k
    decreases MAX_SYMLINKS - s.links, |s.todo|
  {
    hide Step, Comps;
    if s.todo != [] && Step(fs, follow, s).Continue? {
      TargetRead(fs, follow, s);
      var now, later := FollowedNow(fs, follow, s), Followed(fs, follow, Step(fs, follow, s).state);
      FollowedWithin(fs, follow, Step(fs, follow, s).state, k);
      assert Followed(fs, follow, s) == now + later;
    }
  }

  lemma {:induction false} TotalWithin(targets: seq<seq<byte>>, k: nat)
    requires forall t :: t in targets ==> |Comps(t)| <= k
    ensures TotalComps(targets) <= |targets| * k
    decreases |targets|
  {
    hide Comps;
    if targets != [] {
      TotalWithin(targets[1..], k);
      assert |targets| * k == |targets[1..]| * k + k;
    }
  }

  /**
   Theorem: when no symlink target has more than `k` components, a path with at
   most 1000 - 40 * k components never trips the guard.
   */
  lemma GuardUnreached(fs: Fs, path: seq<byte>, follow: FollowSymlinks, k: nat)
    requires ValidFs(fs) && IsPath(path) && TargetsWithin(fs, k)
    requires |Comps(path)| + 40 * k <= 1000
    ensures Resolve(fs, path, follow, 1000) != GuardTripped
  {
    hide Comps, Resolve, TotalComps, Followed, TargetsWithin, PathOf;
    var targets := TargetsOf(fs, path, follow);
    if IsAbsolute(path) && |path| <= MAX_PATH_LEN && fs.root.Ok? {
      FollowedWithin(fs, follow, Start(fs.root.value, path), k);
    }
    TotalWithin(targets, k);
    assert |targets| * k <= 40 * k;
    ShortPathsNeverPanic(fs, path, follow);
  }

  /** No lookup yields a symlink. */
  ghost predicate WithoutSymlinks(fs: Fs) {
    forall d, name :: fs.lookup(d, name).Ok? ==> !fs.lookup(d, name).value.kind.Symlink?
  }

  lemma {:induction false} NothingFollowed(fs: Fs, follow: FollowSymlinks, s: State)
    requires WithoutSymlinks(fs) && s.links <= MAX_SYMLINKS
    ensures Followed(fs, follow, s) == []
    decreases MAX_SYMLINKS - s.links, |s.todo|
  {
    hide Joined, Comps, Spliced;
    if s.todo != [] && Step(fs, follow, s).Continue? {
      NothingFollowed(fs, follow, Step(fs, follow, s).state);
    }
  }

  /** On a filesystem without symlinks the components of the path alone decide. */
  lemma GuardWithoutSymlinks(fs: Fs, path: seq<byte>, follow: FollowSymlinks)
    requires ValidFs(fs) && IsPath(path) && WithoutSymlinks(fs)
    requires Resolve(fs, path, follow, 41 * 2048).Resolved?
    ensures Resolve(fs, path, follow, 1000) == GuardTripped <==> |Comps(path)| > 1000
  {
    hide Comps, Walk, Followed, TotalComps, WithoutSymlinks;
    GuardTripsExactly(fs, path, follow);
    NothingFollowed(fs, follow, Start(fs.root.value, path));
    TotalEmpty();
  }

  function Repeated<T>(x: T, n: nat): (s: seq<T>)
    ensures |s| == n && forall i :: 0 <= i < n ==> s[i] == x
  {
    seq(n, i => x)
  }

  /** The path "/./././ ..." with `n` dots. */
  function DotPath(n: nat): (p: seq<byte>) {
    [SEP] + Joined(Repeated(CURRENT, n), false)
  }

  lemma {:induction false} DotPathLength(n: nat)
    requires n > 0
    ensures |Joined(Repeated(CURRENT, n), false)| == 2 * n - 1
    decreases n
  {
    var cs := Repeated(CURRENT, n);
    if n > 1 {
      assert cs[1..] == Repeated(CURRENT, n - 1);
      DotPathLength(n - 1);
    }
  }

  lemma {:induction false} DotSteps(fs: Fs, follow: FollowSymlinks, s: State)
    requires s.inode.kind.Directory? && fs.lookup(s.inode, CURRENT).Ok? && s.links <= MAX_SYMLINKS
    requires s.todo == Repeated(CURRENT, |s.todo|)
    ensures Steps(fs, follow, s) == |s.todo|
    decreases |s.todo|
  {
    if s.todo != [] {
      assert s.todo[1..] == Repeated(CURRENT, |s.todo| - 1);
      DotSteps(fs, follow, s.(todo := s.todo[1..], sep := s.sep || s.todo[1..] == []));
    }
  }

  /**
   The source says the guard "should never occur in practice". It does on every
   filesystem with a readable root: "/." repeated 1001 times is a short, valid
   path to the root and trips it.
   */
  lemma GuardIsReachable(fs: Fs, follow: FollowSymlinks)
    requires ValidFs(fs)
    requires fs.root.Ok? && fs.root.value.kind.Directory? && fs.lookup(fs.root.value, CURRENT).Ok?
    ensures IsPath(DotPath(1001)) && |DotPath(1001)| == 2002
    ensures Iterations(fs, DotPath(1001), follow) == 1001
    ensures Resolve(fs, DotPath(1001), follow, 1000) == GuardTripped
  {
    hide Joined, Comps, Walk, Steps, PathOf;
    var cs := Repeated(CURRENT, 1001);
    assert AllNames(cs);
    NamesMakePath(cs);
    DotPathLength(1001);
    var s := Start(fs.root.value, DotPath(1001));
    DotSteps(fs, follow, s);
    ResolveTerminates(fs, DotPath(1001), follow, 1000);
  }
}
