/** The resolution loop itself (resolve_path), proved to compute `Resolve`. */
module PathResolver {
  import opened Bytes
  import opened PathResolution
  import opened PathEditing
  import opened Wrappers

  /** Where the pieces of the current state lie in the path vector. */
  lemma Slices(s: State)
    requires s.todo != [] && WellFormed(s)
    ensures var p, k, c := PathOf(s), IndexOf(s), s.todo[0];
            var tail := Tail(s.todo[1..], s.sep);
            && 1 <= k < k + |c| <= |p| == k + |c| + |tail|
            && p[..k] == Prefix(s.done)
            && p[k..k + |c|] == c
            && p[k + |c|..] == tail
            && FindNextSep(p, k) == (if tail == [] then None else Some(k + |c|))
            && (s.todo[1..] == [] <==> |tail| <= 1)
  {
    hide Joined;
    hide FindNextSep;
    Layout(s);
    ComponentEnd(s);
    LastComponent(s);
    assert IsName(s.todo[0]);
  }

  /** The path after draining from `from` through the current component and its separator. */
  lemma Drained(s: State, from: nat)
    requires s.todo != [] && WellFormed(s)
    requires from <= IndexOf(s)
    ensures var p, end := PathOf(s), IndexOf(s) + |s.todo[0]|;
            var tail := Tail(s.todo[1..], s.sep);
            var stop := if end + 1 <= |p| then end + 1 else |p|;
            stop <= |p| && p[..from] + p[stop..] == p[..from] + (if tail == [] then [] else tail[1..])
  {
    hide Joined;
    Slices(s);
    var p, end := PathOf(s), IndexOf(s) + |s.todo[0]|;
    var tail := p[end..];
    if tail != [] {
      assert p[end + 1..] == tail[1..];
    }
  }

  lemma StepKeepsNames(fs: Fs, follow: FollowSymlinks, s: State)
    requires ValidFs(fs) && s.todo != [] && WellFormed(s)
    requires Step(fs, follow, s).Continue?
    ensures AllNames(Step(fs, follow, s).state.done) && AllNames(Step(fs, follow, s).state.todo)
    ensures Step(fs, follow, s).state.links <= MAX_SYMLINKS
  {
    hide Comps;
    hide Joined;
    assert AllNames(s.todo[1..]);
    assert AllNames(DropLast(s.done));
    var child := fs.lookup(s.inode, s.todo[0]).value;
    if child.kind.Symlink? && fs.target(child).Ok? {
      CompsOfPathAreNames(fs.target(child).value);
    }
  }

  /** The path after removing a "." or ".." is the represented path of the next state. */
  lemma CurrentPath(s: State)
    requires s.todo != [] && WellFormed(s)
    ensures var p, k, end := PathOf(s), IndexOf(s), IndexOf(s) + |s.todo[0]|;
            var stop := if end + 1 <= |p| then end + 1 else |p|;
            var rest := s.todo[1..];
            var s' := s.(todo := rest, sep := s.sep || rest == []);
            k <= stop <= |p| && p[..k] + p[stop..] == PathOf(s') && k == IndexOf(s')
            && |PathOf(s')| <= |p|
  {
    hide Joined;
    Slices(s);
    Drained(s, IndexOf(s));
    DrainCurrent(s);
  }

  lemma ParentPath(s: State, child: Inode)
    requires s.todo != [] && WellFormed(s)
    ensures var p, k, end := PathOf(s), IndexOf(s), IndexOf(s) + |s.todo[0]|;
            var stop := if end + 1 <= |p| then end + 1 else |p|;
            var rest := s.todo[1..];
            var s' := State(DropLast(s.done), child, rest, s.sep || rest == [], s.links);
            && 0 < k < |p| && p[0] == SEP && p[k - 1] == SEP
            && var from := FindParentComponentStart(p, k);
            && from <= stop <= |p| && p[..from] + p[stop..] == PathOf(s') && from == IndexOf(s')
            && |PathOf(s')| <= |p|
  {
    hide Joined;
    hide FindParentComponentStart;
    Slices(s);
    ParentStart(s);
    var from := FindParentComponentStart(PathOf(s), IndexOf(s));
    assert from <= IndexOf(s);
    Drained(s, from);
    var rest := s.todo[1..];
    var s' := State(DropLast(s.done), child, rest, s.sep || rest == [], s.links);
    DrainCurrent(State(DropLast(s.done), child, s.todo, s.sep, s.links));
  }

  /** Splicing a target into the vector, at the root or at the current component. */
  lemma SplicedBytes(s: State, target: seq<byte>)
    requires s.todo != [] && WellFormed(s)
    ensures var p, end := PathOf(s), IndexOf(s) + |s.todo[0]|;
            var from := if IsAbsolute(target) then 0 else IndexOf(s);
            && from <= end <= |p|
            && p[..from] + target + p[end..] == Spliced(s, target)
  {
    hide Joined;
    Slices(s);
  }

  lemma FinalPath(s: State)
    requires WellFormed(s) && s.todo == []
    ensures s.done == [] || !s.sep ==> PathOf(s) == [SEP] + Joined(s.done, false)
    ensures |PathOf(s)| > 1 <==> s.done != []
    ensures s.done != [] ==> EndsWithSep(PathOf(s)) == s.sep
    ensures s.done != [] && s.sep ==> PathOf(s)[..|PathOf(s)| - 1] == [SEP] + Joined(s.done, false)
    ensures IsPath([SEP] + Joined(s.done, false))
  {
    NamesAreComponents(s.done);
    if s.done != [] {
      JoinedFirstByte(s.done, s.sep);
      JoinedLastByte(s.done, s.sep);
      JoinedWithoutSep(s.done);
    }
    NamesMakePath(s.done);
  }

  lemma {:induction false} JoinedKeepsBytes(cs: seq<seq<byte>>, b: byte)
    requires b != SEP && forall i :: 0 <= i < |cs| ==> b !in cs[i]
    ensures b !in Joined(cs, false)
    decreases |cs|
  {
    if |cs| > 1 {
      JoinedKeepsBytes(cs[1..], b);
    }
  }

  lemma NamesMakePath(cs: seq<seq<byte>>)
    requires AllNames(cs)
    ensures IsPath([SEP] + Joined(cs, false))
    ensures Comps([SEP] + Joined(cs, false)) == cs
  {
    hide Comps;
    NamesAreComponents(cs);
    CompsOfAbsolute(Joined(cs, false));
    CompsOfJoined(cs, false);
    assert forall i :: 0 <= i < |cs| ==> IsName(cs[i]);
    JoinedKeepsBytes(cs, 0);
  }

  lemma StartRepresents(root: Inode, path: seq<byte>)
    requires IsPath(path) && IsAbsolute(path) && |path| <= MAX_PATH_LEN
    ensures var s := Start(root, path);
            WellFormed(s) && PathOf(s) == Dedup(path) && IndexOf(s) == 1 && s.inode == root && s.links == 0
  {
    hide Comps;
    hide Dedup;
    DedupAbsolute(path);
    DedupEnds(path);
    CompsOfPathAreNames(path);
  }

  lemma WalkStep(fs: Fs, follow: FollowSymlinks, s: State, steps: nat, limit: nat)
    requires s.links <= MAX_SYMLINKS && s.todo != [] && steps < limit
    ensures Step(fs, follow, s).Stop? ==> Walk(fs, follow, s, steps, limit) == Step(fs, follow, s).outcome
    ensures Step(fs, follow, s).Continue? ==>
              Walk(fs, follow, s, steps, limit) == Walk(fs, follow, Step(fs, follow, s).state, steps + 1, limit)
  {
  }

  /** `next` is well formed and held by the loop as this path and index. */
  predicate Holds(next: State, path: seq<byte>, index: nat) {
    WellFormed(next) && path == PathOf(next) && index == IndexOf(next)
  }

  /** The index at which the path continues after the component ending at `end`. */
  function PastSep(path: seq<byte>, end: nat): (k: nat) {
    if end + 1 <= |path| then end + 1 else |path|
  }

  lemma CurrentBranch(fs: Fs, follow: FollowSymlinks, s: State)
    requires ValidFs(fs) && s.todo != [] && WellFormed(s)
    requires s.inode.kind.Directory? && fs.lookup(s.inode, s.todo[0]).Ok? && s.todo[0] == CURRENT
    ensures var p, k, stop := PathOf(s), IndexOf(s), PastSep(PathOf(s), IndexOf(s) + |s.todo[0]|);
            var step := Step(fs, follow, s);
            && k <= stop <= |p|
            && step.Continue? && step.state.inode == s.inode && step.state.links == s.links
            && Holds(step.state, p[..k] + p[stop..], k)
  {
    hide Joined, PathOf, IndexOf;
    CurrentPath(s);
    StepKeepsNames(fs, follow, s);
  }

  lemma ParentBranch(fs: Fs, follow: FollowSymlinks, s: State)
    requires ValidFs(fs) && s.todo != [] && WellFormed(s)
    requires s.inode.kind.Directory? && fs.lookup(s.inode, s.todo[0]).Ok? && s.todo[0] == PARENT
    ensures var p, k, stop := PathOf(s), IndexOf(s), PastSep(PathOf(s), IndexOf(s) + |s.todo[0]|);
            var step := Step(fs, follow, s);
            && 0 < k < |p| && p[0] == SEP && p[k - 1] == SEP
            && var from := FindParentComponentStart(p, k);
            && from <= stop <= |p|
            && step.Continue? && step.state.links == s.links
            && step.state.inode == fs.lookup(s.inode, s.todo[0]).value
            && Holds(step.state, p[..from] + p[stop..], from)
  {
    hide Joined, PathOf, IndexOf, FindParentComponentStart;
    assert PARENT != CURRENT;
    ParentPath(s, fs.lookup(s.inode, s.todo[0]).value);
    StepKeepsNames(fs, follow, s);
  }

  /** The current component names a symlink that this mode follows. */
  predicate AtLink(fs: Fs, follow: FollowSymlinks, s: State) {
    && s.todo != [] && s.inode.kind.Directory?
    && s.todo[0] != CURRENT && s.todo[0] != PARENT
    && fs.lookup(s.inode, s.todo[0]).Ok?
    && fs.lookup(s.inode, s.todo[0]).value.kind.Symlink?
    && (follow.All? || s.todo[1..] != [])
  }

  lemma LinkBranch(fs: Fs, follow: FollowSymlinks, s: State)
    requires ValidFs(fs) && WellFormed(s) && AtLink(fs, follow, s)
    requires fs.target(fs.lookup(s.inode, s.todo[0]).value).Ok?
    requires s.links < MAX_SYMLINKS
    ensures var p, end := PathOf(s), IndexOf(s) + |s.todo[0]|;
            var step := Step(fs, follow, s);
            var target := fs.target(fs.lookup(s.inode, s.todo[0]).value).value;
            var from := if IsAbsolute(target) then 0 else IndexOf(s);
            && from <= end <= |p|
            && target != []
            && var q := p[..from] + target + p[end..];
            && (IsAbsolute(target) && fs.root.Err? ==> step == Stop(Failed(fs.root.error)))
            && (IsAbsolute(target) && fs.root.Ok? && |q| <= MAX_PATH_LEN ==>
                  step.Continue? && step.state.links == s.links + 1 && step.state.inode == fs.root.value
                  && Holds(step.state, Dedup(q), 1))
            && (!IsAbsolute(target) && |q| <= MAX_PATH_LEN ==>
                  step.Continue? && step.state.links == s.links + 1 && step.state.inode == s.inode
                  && Holds(step.state, Dedup(q), IndexOf(s)))
            && (!(IsAbsolute(target) && fs.root.Err?) && |q| > MAX_PATH_LEN ==> step == Stop(Failed(PathTooLong)))
  {
    hide Joined, PathOf, IndexOf, Comps, Dedup, Spliced;
    var target := fs.target(fs.lookup(s.inode, s.todo[0]).value).value;
    SplicedBytes(s, target);
    NamesAreComponents(s.done);
    NamesAreComponents(s.todo);
    if Step(fs, follow, s).Continue? {
      StepKeepsNames(fs, follow, s);
      DedupEnds(Spliced(s, target));
      if IsAbsolute(target) {
        SpliceAbsolute(s, target, fs.root.value);
      } else {
        SpliceRelative(s, target);
      }
    }
  }

  lemma AdvanceBranch(fs: Fs, follow: FollowSymlinks, s: State)
    requires ValidFs(fs) && s.todo != [] && WellFormed(s)
    requires s.inode.kind.Directory? && fs.lookup(s.inode, s.todo[0]).Ok?
    requires s.todo[0] != CURRENT && s.todo[0] != PARENT && !AtLink(fs, follow, s)
    ensures var p, stop := PathOf(s), PastSep(PathOf(s), IndexOf(s) + |s.todo[0]|);
            var step := Step(fs, follow, s);
            && step.Continue? && step.state.links == s.links
            && step.state.inode == fs.lookup(s.inode, s.todo[0]).value
            && Holds(step.state, p, stop)
  {
    hide Joined, PathOf, IndexOf;
    Slices(s);
    AdvancePath(s, fs.lookup(s.inode, s.todo[0]).value);
    StepKeepsNames(fs, follow, s);
  }

  /** The early returns of the loop body. */
  lemma StopBranch(fs: Fs, follow: FollowSymlinks, s: State)
    requires s.todo != []
    ensures !s.inode.kind.Directory? ==> Step(fs, follow, s) == Stop(Failed(NotADirectory))
    ensures s.inode.kind.Directory? && fs.lookup(s.inode, s.todo[0]).Err? ==>
              Step(fs, follow, s) == Stop(Failed(fs.lookup(s.inode, s.todo[0]).error))
    ensures AtLink(fs, follow, s) && s.links >= MAX_SYMLINKS ==> Step(fs, follow, s) == Stop(Failed(TooManySymlinks))
    ensures AtLink(fs, follow, s) && s.links < MAX_SYMLINKS
            && fs.target(fs.lookup(s.inode, s.todo[0]).value).Err? ==>
              Step(fs, follow, s) == Stop(Failed(fs.target(fs.lookup(s.inode, s.todo[0]).value).error))
  {
  }

  /** What the loop computes about the current component. */
  lemma ComponentAt(s: State, path: seq<byte>, index: nat)
    requires Holds(s, path, index) && index < |path|
    ensures s.todo != []
    ensures var next := FindNextSep(path, index);
            var end := if next.Some? then next.value else |path|;
            && index < end <= |path| && path[index..end] == s.todo[0] && end == index + |s.todo[0]|
            && (next.None? || end == |path| - 1 <==> s.todo[1..] == [])
    ensures IsName(s.todo[0])
  {
    hide Joined, FindNextSep;
    Slices(s);
  }

  /**
   resolve_path. The asserts are the source's unwraps and panics: the component
   is always a valid name, the separators it relies on are there, and the final
   vector is a valid path.
   */
  method ResolvePath(fs: Fs, input: seq<byte>, follow: FollowSymlinks) returns (r: Outcome)
    requires IsPath(input) && ValidFs(fs)
    ensures r == Resolve(fs, input, follow, 1000)
  {
    hide Comps, Joined, Dedup, Walk, Step, Start, Finish, PathOf, IndexOf, Spliced, Tail;
    hide FindNextSep, FindParentComponentStart, IsPath;
    if !IsAbsolute(input) {
      return Failed(NotAbsolute);
    }
    if |input| > MAX_PATH_LEN {
      return Failed(PathTooLong);
    }
    var path := PathDedupSep(input);
    var numSymlinks: nat := 0;
    var numIterations: nat := 0;
    var inode: Inode;
    match fs.root {
      case Err(e) => return Failed(e);
      case Ok(root) => inode := root;
    }
    var index: nat := 1;
    ghost var s := Start(inode, input);
    StartRepresents(inode, input);
    ghost var goal := Walk(fs, follow, s, 0, MAX_ITERATIONS);

    while index < |path|
      invariant Holds(s, path, index)
      invariant inode == s.inode && numSymlinks == s.links
      invariant numIterations <= MAX_ITERATIONS
      invariant Walk(fs, follow, s, numIterations, MAX_ITERATIONS) == goal
      decreases MAX_SYMLINKS - numSymlinks, |s.todo|
    {
      ComponentAt(s, path, index);
      numIterations := numIterations + 1;
      if numIterations > MAX_ITERATIONS {
        WalkGuard(fs, follow, s, MAX_ITERATIONS);
        return GuardTripped;
      }
      WalkStep(fs, follow, s, numIterations - 1, MAX_ITERATIONS);
      StopBranch(fs, follow, s);
      var nextSep := FindNextSep(path, index);
      var compEnd := if nextSep.Some? then nextSep.value else |path|;
      var lastIndex := |path| - 1;
      var isLastComponent := nextSep.None? || compEnd == lastIndex;
      var compEndWithSep := PastSep(path, compEnd);
      var comp := path[index..compEnd];

      if !inode.kind.Directory? {
        return Failed(NotADirectory);
      }
      assert IsName(comp);
      var child: Inode;
      match fs.lookup(inode, comp) {
        case Err(e) => return Failed(e);
        case Ok(c) => child := c;
      }
      ghost var step := Step(fs, follow, s);

      if comp == CURRENT {
        CurrentBranch(fs, follow, s);
        path := path[..index] + path[compEndWithSep..];
      } else if comp == PARENT {
        ParentBranch(fs, follow, s);
        var removeStart := FindParentComponentStart(path, index);
        path := path[..removeStart] + path[compEndWithSep..];
        index := removeStart;
        inode := child;
      } else if child.kind.Symlink? && (follow.All? || !isLastComponent) {
        numSymlinks := numSymlinks + 1;
        if numSymlinks > MAX_SYMLINKS {
          return Failed(TooManySymlinks);
        }
        var target: seq<byte>;
        match fs.target(child) {
          case Err(e) => return Failed(e);
          case Ok(t) => target := t;
        }
        LinkBranch(fs, follow, s);
        var replaceStart;
        if IsAbsolute(target) {
          match fs.root {
            case Err(e) => return Failed(e);
            case Ok(root) => inode := root;
          }
          index := 1;
          replaceStart := 0;
        } else {
          replaceStart := index;
        }
        path := path[..replaceStart] + target + path[compEnd..];
        if |path| > MAX_PATH_LEN {
          return Failed(PathTooLong);
        }
        path := PathDedupSep(path);
      } else {
        AdvanceBranch(fs, follow, s);
        index := compEndWithSep;
        inode := child;
      }
      s := step.state;
    }

    FinishState(s);
    WalkEnd(fs, follow, s, numIterations, MAX_ITERATIONS);
    FinalPath(s);
    if |path| > 1 && path[|path| - 1] == SEP {
      if inode.kind.Directory? {
        path := path[..|path| - 1];
      } else {
        return Failed(NotADirectory);
      }
    }
    assert IsPath(path);
    r := Resolved(inode, path);
  }

  lemma WalkGuard(fs: Fs, follow: FollowSymlinks, s: State, limit: nat)
    requires s.links <= MAX_SYMLINKS && s.todo != []
    ensures Walk(fs, follow, s, limit, limit) == GuardTripped
  {
  }

  lemma WalkEnd(fs: Fs, follow: FollowSymlinks, s: State, steps: nat, limit: nat)
    requires s.links <= MAX_SYMLINKS && s.todo == []
    ensures Walk(fs, follow, s, steps, limit) ==
            if s.done != [] && s.sep && !s.inode.kind.Directory? then Failed(NotADirectory)
            else Resolved(s.inode, [SEP] + Joined(s.done, false))
  {
  }

  lemma FinishState(s: State)
    requires WellFormed(s) && IndexOf(s) >= |PathOf(s)|
    ensures s.todo == []
  {
    if s.todo != [] {
      ComponentEnd(s);
    }
  }
}
