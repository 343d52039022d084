/**
 The meaning of a path, without a path vector: symlinks are resolved by
 resolving their targets (path_resolution(7)). What resolve_path answers by
 editing one vector is that meaning (ext4-view-rs/src/resolve.rs).
 */
module PathMeaning {
  import opened Bytes
  import opened PathResolution
  import opened PathEditing
  import opened PathResolver
  import opened PathResolutionTheorems
  import opened Wrappers

  /** A place in the tree: its inode, and the names that lead to it from the root. */
  datatype Place = Place(names: seq<seq<byte>>, inode: Inode)

  /** Where a walk ends, with the number of symlinks that it may still follow, or why it ends nowhere. */
  datatype Arrival = Arrived(place: Place, links: nat) | Refused(error: Error)

  /** A place that a trailing separator or ".." may end at: a directory, or the root. */
  predicate Enterable(p: Place) {
    p.names == [] || p.inode.kind.Directory?
  }

  /** Walking components one after the other. */
  function Visit(fs: Fs, follow: FollowSymlinks, p: Place, comps: seq<seq<byte>>, links: nat): (r: Arrival)
    ensures r.Arrived? ==> r.links <= links
    decreases links, |comps|
  {
    if comps == [] then Arrived(p, links)
    else
      match Enter(fs, if |comps| > 1 then All else follow, p, comps[0], links)
      case Refused(e) => Refused(e)
      case Arrived(next, left) => Visit(fs, follow, next, comps[1..], left)
  }

  /** Walking one component; a symlink is followed by walking its target, from the root or from where the link is. */
  function Enter(fs: Fs, follow: FollowSymlinks, p: Place, name: seq<byte>, links: nat): (r: Arrival)
    ensures r.Arrived? ==> r.links <= links
    decreases links, 0
  {
    if !p.inode.kind.Directory? then Refused(NotADirectory)
    else match fs.lookup(p.inode, name)
      case Err(e) => Refused(e)
      case Ok(child) =>
        if name == CURRENT then Arrived(p, links)
        else if name == PARENT then
          var up := Place(DropLast(p.names), child);
          if Enterable(up) then Arrived(up, links) else Refused(NotADirectory)
        else if !child.kind.Symlink? || follow.ExcludeFinalComponent? then
          Arrived(Place(p.names + [name], child), links)
        else if links == 0 then Refused(TooManySymlinks)
        else match fs.target(child)
          case Err(e) => Refused(e)
          case Ok(target) =>
            if IsAbsolute(target) then
              match fs.root
              case Err(e) => Refused(e)
              case Ok(root) => Checked(Visit(fs, All, Place([], root), Comps(target), links - 1), EndsWithSep(target))
            else Checked(Visit(fs, All, p, Comps(target), links - 1), EndsWithSep(target))
  }

  /** A trailing separator asks for a directory. */
  function Checked(r: Arrival, sep: bool): (c: Arrival)
    ensures c.Arrived? ==> c == r
  {
    if r.Arrived? && sep && !Enterable(r.place) then Refused(NotADirectory) else r
  }

  function Answer(r: Arrival): (o: Outcome) {
    match r
    case Refused(e) => Failed(e)
    case Arrived(p, _) => Resolved(p.inode, [SEP] + Joined(p.names, false))
  }

  /** What a path means; at most 40 symlinks are followed. */
  function Meaning(fs: Fs, path: seq<byte>, follow: FollowSymlinks): (o: Outcome) {
    if !IsAbsolute(path) then Failed(NotAbsolute)
    else match fs.root
      case Err(e) => Failed(e)
      case Ok(root) => Answer(Checked(Visit(fs, follow, Place([], root), Comps(path), 40), EndsWithSep(path)))
  }

  // ---------------------------------------------------------------------
  // The limits, step by step

  /** The bytes of the vector after a target is spliced in for the current component. */
  function GrownLength(s: State, target: seq<byte>): (n: int)
    requires s.todo != []
  {
    (if IsAbsolute(target) then 0 else IndexOf(s)) + |target| + |PathOf(s)| - IndexOf(s) - |s.todo[0]|
  }

  /**
   Exactly what an iteration does at a symlink that it follows: the 41st is
   refused, an unreadable target or root is passed on, a vector of more than
   4096 bytes is refused, and otherwise the target is put in the link's place.
   */
  lemma LinkExactly(fs: Fs, follow: FollowSymlinks, s: State)
    requires ValidFs(fs) && WellFormed(s) && AtLink(fs, follow, s)
    ensures var step, target := Step(fs, follow, s), fs.target(fs.lookup(s.inode, s.todo[0]).value);
            && (s.links >= 40 ==> step == Stop(Failed(TooManySymlinks)))
            && (s.links < 40 && target.Err? ==> step == Stop(Failed(target.error)))
            && (s.links < 40 && target.Ok? ==>
                  if IsAbsolute(target.value) && fs.root.Err? then step == Stop(Failed(fs.root.error))
                  else if GrownLength(s, target.value) > 4096 then step == Stop(Failed(PathTooLong))
                  else
                    && step.Continue? && step.state.links == s.links + 1
                    && step.state.todo == Comps(target.value) + s.todo[1..]
                    && step.state.done == (if IsAbsolute(target.value) then [] else s.done)
                    && step.state.inode == (if IsAbsolute(target.value) then fs.root.value else s.inode)
                    && |PathOf(step.state)| <= GrownLength(s, target.value))
  {
    hide Joined, PathOf, IndexOf, Comps, Dedup, Spliced;
    StopBranch(fs, follow, s);
    if s.links < 40 && fs.target(fs.lookup(s.inode, s.todo[0]).value).Ok? {
      LinkBranch(fs, follow, s);
      var target := fs.target(fs.lookup(s.inode, s.todo[0]).value).value;
      var from := if IsAbsolute(target) then 0 else IndexOf(s);
      DedupEnds(PathOf(s)[..from] + target + PathOf(s)[IndexOf(s) + |s.todo[0]|..]);
    }
  }

  /** No symlink target has more than `k` bytes. */
  ghost predicate TargetsBelow(fs: Fs, k: nat) {
    forall i :: fs.target(i).Ok? ==> |fs.target(i).value| <= k
  }

  /** What the symlinks that may still be followed can add to the vector. */
  function Allowance(links: nat, k: nat): (n: int) {
    (40 - links) * k
  }

  /** The vector cannot grow past 4096 bytes. */
  ghost predicate Roomy(fs: Fs, s: State, k: nat) {
    TargetsBelow(fs, k) && |PathOf(s)| + Allowance(s.links, k) <= 4096
  }

  lemma AllowanceStep(links: nat, k: nat)
    requires links < 40
    ensures Allowance(links, k) == Allowance(links + 1, k) + k && Allowance(links + 1, k) >= 0
  {
  }

  /** Other iterations make the vector no longer. */
  lemma PlainLength(fs: Fs, follow: FollowSymlinks, s: State)
    requires ValidFs(fs) && WellFormed(s) && s.todo != [] && !AtLink(fs, follow, s) && Step(fs, follow, s).Continue?
    ensures var s' := Step(fs, follow, s).state;
            WellFormed(s') && s'.links == s.links && |PathOf(s')| <= |PathOf(s)|
  {
    hide Joined, PathOf, IndexOf, Comps, Dedup, Spliced, FindParentComponentStart;
    StopBranch(fs, follow, s);
    if s.todo[0] == CURRENT {
      CurrentBranch(fs, follow, s);
    } else if s.todo[0] == PARENT {
      ParentBranch(fs, follow, s);
    } else {
      AdvanceBranch(fs, follow, s);
    }
  }

  /** An iteration keeps the vector roomy. */
  lemma StaysRoomy(fs: Fs, follow: FollowSymlinks, s: State, k: nat)
    requires ValidFs(fs) && WellFormed(s) && s.todo != [] && Roomy(fs, s, k)
    ensures AtLink(fs, follow, s) && s.links < 40 && fs.target(fs.lookup(s.inode, s.todo[0]).value).Ok? ==>
              GrownLength(s, fs.target(fs.lookup(s.inode, s.todo[0]).value).value) <= 4096
    ensures Step(fs, follow, s).Continue? ==> Roomy(fs, Step(fs, follow, s).state, k)
  {
    hide PathOf, Step, Allowance, IndexOf, Comps;
    if AtLink(fs, follow, s) {
      LinkExactly(fs, follow, s);
      LinkInside(s);
      if s.links < 40 {
        AllowanceStep(s.links, k);
      }
    } else if Step(fs, follow, s).Continue? {
      PlainLength(fs, follow, s);
    }
  }

  lemma LinkInside(s: State)
    requires WellFormed(s) && s.todo != []
    ensures IndexOf(s) + |s.todo[0]| <= |PathOf(s)|
  {
    Slices(s);
  }

  // ---------------------------------------------------------------------
  // The loop computes the meaning

  /** A walk that no limit on iterations or on the length of the vector cuts short. */
  ghost predicate Unhindered(fs: Fs, follow: FollowSymlinks, s: State, steps: nat, limit: nat, k: nat)
    requires s.links <= MAX_SYMLINKS
  {
    var w := Walk(fs, follow, s, steps, limit);
    w != GuardTripped && (w == Failed(PathTooLong) ==> Roomy(fs, s, k))
  }

  function PlaceOf(s: State): (p: Place) {
    Place(s.done, s.inode)
  }

  lemma WalkStep(fs: Fs, follow: FollowSymlinks, s: State, steps: nat, limit: nat)
    requires s.links <= MAX_SYMLINKS && s.todo != [] && Walk(fs, follow, s, steps, limit) != GuardTripped
    ensures steps < limit
    ensures Walk(fs, follow, s, steps, limit)
         == match Step(fs, follow, s) case Stop(o) => o case Continue(s') => Walk(fs, follow, s', steps + 1, limit)
  {
  }

  /** A step other than one along a symlink is that of the meaning. */
  lemma PlainStep(fs: Fs, follow: FollowSymlinks, s: State)
    requires s.links <= 40 && s.todo != [] && !AtLink(fs, follow, s)
    ensures var mode, step := if |s.todo| > 1 then All else follow, Step(fs, follow, s);
            var r := Enter(fs, mode, PlaceOf(s), s.todo[0], 40 - s.links);
            && (step.Stop? ==> r.Refused? && step.outcome == Failed(r.error))
            && (step.Continue? ==>
                  && step.state.todo == s.todo[1..] && step.state.links == s.links
                  && step.state.sep == (s.sep || (|s.todo| == 1 && s.todo[0] in {CURRENT, PARENT}))
                  && (r.Arrived? ==> r == Arrived(PlaceOf(step.state), 40 - s.links))
                  && (r.Arrived? && s.todo[0] in {CURRENT, PARENT} ==> Enterable(PlaceOf(step.state)))
                  && (r.Refused? ==>
                        r.error == NotADirectory && s.todo[0] == PARENT && !Enterable(PlaceOf(step.state))))
  {
  }

  /** Whether the path ends with a separator after a target is spliced in. */
  lemma LinkSep(fs: Fs, follow: FollowSymlinks, s: State)
    requires ValidFs(fs) && WellFormed(s) && AtLink(fs, follow, s) && Step(fs, follow, s).Continue?
    ensures fs.target(fs.lookup(s.inode, s.todo[0]).value).Ok?
    ensures var target := fs.target(fs.lookup(s.inode, s.todo[0]).value).value;
            Step(fs, follow, s).state.sep == (s.sep || (|s.todo| == 1 && EndsWithSep(target)))
  {
    hide Joined, Comps, PathOf;
    var target := fs.target(fs.lookup(s.inode, s.todo[0]).value).value;
    TailEnds(s.todo[1..], s.sep);
    var tail := Tail(s.todo[1..], s.sep);
    var p := Spliced(s, target);
    assert tail != [] ==> p[|p| - 1] == tail[|tail| - 1];
    assert tail == [] ==> p[|p| - 1] == target[|target| - 1];
  }

  lemma TailEnds(rest: seq<seq<byte>>, sep: bool)
    requires AllNames(rest)
    ensures EndsWithSep(Tail(rest, sep)) == sep
    ensures Tail(rest, sep) == [] <==> rest == [] && !sep
  {
    hide Joined;
    if rest != [] {
      NamesAreComponents(rest);
      JoinedLastByte(rest, sep);
      JoinedFirstByte(rest, sep);
    }
  }

  /** The meaning of a symlink that is followed. */
  lemma EnterLink(fs: Fs, follow: FollowSymlinks, s: State)
    requires s.links <= 40 && AtLink(fs, follow, s)
    ensures var mode, target := if |s.todo| > 1 then All else follow, fs.target(fs.lookup(s.inode, s.todo[0]).value);
            var r := Enter(fs, mode, PlaceOf(s), s.todo[0], 40 - s.links);
            && (s.links == 40 ==> r == Refused(TooManySymlinks))
            && (s.links < 40 && target.Err? ==> r == Refused(target.error))
            && (s.links < 40 && target.Ok? ==>
                  if IsAbsolute(target.value) && fs.root.Err? then r == Refused(fs.root.error)
                  else
                    var from := if IsAbsolute(target.value) then Place([], fs.root.value) else PlaceOf(s);
                    r == Checked(Visit(fs, All, from, Comps(target.value), 39 - s.links), EndsWithSep(target.value)))
  {
    hide Comps, Visit, Checked;
  }

  lemma VisitStep(fs: Fs, follow: FollowSymlinks, p: Place, comps: seq<seq<byte>>, links: nat)
    requires comps != []
    ensures Visit(fs, follow, p, comps, links)
         == match Enter(fs, if |comps| > 1 then All else follow, p, comps[0], links)
            case Refused(e) => Refused(e)
            case Arrived(next, left) => Visit(fs, follow, next, comps[1..], left)
  {
    hide Enter;
  }

  /** The link step, for a walk that no limit cuts short: refused as in the meaning, or continued with the target. */
  lemma LinkStep(fs: Fs, follow: FollowSymlinks, s: State, steps: nat, limit: nat, k: nat)
    requires ValidFs(fs) && WellFormed(s) && AtLink(fs, follow, s) && Unhindered(fs, follow, s, steps, limit, k)
    ensures s.links <= 40 && Walk(fs, follow, s, steps, limit) != GuardTripped
    ensures var mode, step := if |s.todo| > 1 then All else follow, Step(fs, follow, s);
            var r := Enter(fs, mode, PlaceOf(s), s.todo[0], 40 - s.links);
            && (step.Stop? ==> r.Refused? && Walk(fs, follow, s, steps, limit) == Failed(r.error))
            && (step.Continue? ==>
                  && fs.target(fs.lookup(s.inode, s.todo[0]).value).Ok?
                  && var target, s' := fs.target(fs.lookup(s.inode, s.todo[0]).value).value, step.state;
                  && s.links < 40 && s'.links == s.links + 1 && WellFormed(s')
                  && s'.todo == Comps(target) + s.todo[1..]
                  && s'.sep == (s.sep || (|s.todo| == 1 && EndsWithSep(target)))
                  && r == Checked(Visit(fs, All, PlaceOf(s'), Comps(target), 39 - s.links), EndsWithSep(target))
                  && Walk(fs, follow, s, steps, limit) == Walk(fs, follow, s', steps + 1, limit)
                  && Unhindered(fs, follow, s', steps + 1, limit, k))
  {
    hide Step, Enter, Visit, Checked, Comps, PathOf, Walk, Roomy, GrownLength;
    LinkExactly(fs, follow, s);
    EnterLink(fs, follow, s);
    WalkStep(fs, follow, s, steps, limit);
    if Roomy(fs, s, k) {
      StaysRoomy(fs, follow, s, k);
    }
    if Step(fs, follow, s).Continue? {
      StepKeepsLength(fs, follow, s);
      LinkSep(fs, follow, s);
    }
  }

  /** The same for any other step. */
  lemma OtherStep(fs: Fs, follow: FollowSymlinks, s: State, steps: nat, limit: nat, k: nat)
    requires ValidFs(fs) && WellFormed(s) && s.todo != [] && !AtLink(fs, follow, s)
    requires Unhindered(fs, follow, s, steps, limit, k)
    ensures s.links <= 40 && Walk(fs, follow, s, steps, limit) != GuardTripped
    ensures var mode, step := if |s.todo| > 1 then All else follow, Step(fs, follow, s);
            var r := Enter(fs, mode, PlaceOf(s), s.todo[0], 40 - s.links);
            && (step.Stop? ==> r.Refused? && Walk(fs, follow, s, steps, limit) == Failed(r.error))
            && (step.Continue? ==>
                  && step.state.links == s.links && WellFormed(step.state)
                  && Walk(fs, follow, s, steps, limit) == Walk(fs, follow, step.state, steps + 1, limit)
                  && Unhindered(fs, follow, step.state, steps + 1, limit, k))
  {
    hide Step, Enter, Visit, Comps, PathOf, Walk, Roomy;
    PlainStep(fs, follow, s);
    WalkStep(fs, follow, s, steps, limit);
    if Roomy(fs, s, k) {
      StaysRoomy(fs, follow, s, k);
    }
    if Step(fs, follow, s).Continue? {
      PlainLength(fs, follow, s);
    }
  }

  /** The state in which a walk has arrived with components left. */
  function Onward(r: Arrival, rest: seq<seq<byte>>, sep: bool): (s: State)
    requires r.Arrived? && r.links <= 40
  {
    State(r.place.names, r.place.inode, rest, sep, 40 - r.links)
  }

  lemma OnwardPlace(r: Arrival, rest: seq<seq<byte>>, sep: bool)
    requires r.Arrived? && r.links <= 40
    ensures var t := Onward(r, rest, sep);
            r == Arrived(PlaceOf(t), 40 - t.links) && t.todo == rest && t.sep == sep && t.links <= 40
  {
  }

  /** A walk from `s` is one from after its first `n` components, at step `next`, or fails among them. */
  ghost predicate Walked(fs: Fs, follow: FollowSymlinks, s: State, n: nat, steps: nat, limit: nat, k: nat, next: nat)
    requires s.links <= 40 && n < |s.todo|
  {
    var r, w := Visit(fs, All, PlaceOf(s), s.todo[..n], 40 - s.links), Walk(fs, follow, s, steps, limit);
    && (r.Refused? ==> w == Failed(r.error))
    && (r.Arrived? ==>
          var t := Onward(r, s.todo[n..], s.sep);
          && t.links >= s.links && WellFormed(t)
          && w == Walk(fs, follow, t, next, limit) && Unhindered(fs, follow, t, next, limit, k))
  }

  /**
   Components followed by others are walked as they are on their own: all
   symlinks among them are followed, and the walk goes on with the others.
   */
  lemma {:induction false} Inner(fs: Fs, follow: FollowSymlinks, s: State, n: nat, steps: nat, limit: nat, k: nat)
    returns (next: nat)
    requires ValidFs(fs) && WellFormed(s) && s.links <= 40 && n < |s.todo| && Unhindered(fs, follow, s, steps, limit, k)
    ensures Walked(fs, follow, s, n, steps, limit, k, next)
    decreases 40 - s.links, n, 1
  {
    hide Step, Enter, Visit, Comps, Walk, WellFormed, Unhindered, AtLink, Roomy;
    if n == 0 {
      next := steps;
      assert s.todo[0..] == s.todo;
      VisitNone(fs, All, PlaceOf(s), 40 - s.links);
    } else {
      hide Walked;
      if AtLink(fs, follow, s) {
        next := InnerLink(fs, follow, s, n, steps, limit, k);
      } else {
        next := InnerPlain(fs, follow, s, n, steps, limit, k);
      }
    }
  }

  lemma {:induction false} InnerPlain(fs: Fs, follow: FollowSymlinks, s: State, n: nat, steps: nat, limit: nat, k: nat)
    returns (next: nat)
    requires ValidFs(fs) && WellFormed(s) && s.links <= 40 && 0 < n < |s.todo| && !AtLink(fs, follow, s)
    requires Unhindered(fs, follow, s, steps, limit, k)
    ensures Walked(fs, follow, s, n, steps, limit, k, next)
    decreases 40 - s.links, n, 0
  {
    hide Step, Enter, Visit, Comps, Walk, WellFormed, Unhindered, AtLink, Roomy, Enterable, Walked;
    next := steps;
    VisitFirst(fs, follow, s, n, steps, limit, k, next);
    OtherStep(fs, follow, s, steps, limit, k);
    if Step(fs, follow, s).Continue? {
      PlainInside(fs, follow, s);
      var s' := Step(fs, follow, s).state;
      if Enter(fs, All, PlaceOf(s), s.todo[0], 40 - s.links).Refused? {
        StuckOutside(fs, follow, s', steps + 1, limit);
      } else {
        next := Inner(fs, follow, s', n - 1, steps + 1, limit, k);
        WalkedOn(fs, follow, s, s', n, steps, steps + 1, limit, k, next);
      }
    }
  }

  lemma PlainInside(fs: Fs, follow: FollowSymlinks, s: State)
    requires s.links <= 40 && |s.todo| > 1 && !AtLink(fs, follow, s) && Step(fs, follow, s).Continue?
    ensures var s', r := Step(fs, follow, s).state, Enter(fs, All, PlaceOf(s), s.todo[0], 40 - s.links);
            && s'.todo == s.todo[1..] && s'.links == s.links && s'.sep == s.sep
            && (r.Arrived? ==> r == Arrived(PlaceOf(s'), 40 - s.links))
            && (r.Refused? ==> r.error == NotADirectory && !Enterable(PlaceOf(s')))
  {
    hide Step, Enter;
    PlainStep(fs, follow, s);
  }

  /** Components that are refused at the first one. */
  lemma VisitFirst(fs: Fs, follow: FollowSymlinks, s: State, n: nat, steps: nat, limit: nat, k: nat, next: nat)
    requires s.links <= 40 && 0 < n < |s.todo|
    ensures var r := Enter(fs, All, PlaceOf(s), s.todo[0], 40 - s.links);
            r.Refused? && Walk(fs, follow, s, steps, limit) == Failed(r.error) ==>
              Walked(fs, follow, s, n, steps, limit, k, next)
  {
    hide Enter, Visit, Walk;
    VisitStep(fs, All, PlaceOf(s), s.todo[..n], 40 - s.links);
  }

  /** Walking on from where the first component leads. */
  lemma WalkedOn(fs: Fs, follow: FollowSymlinks, s: State, s': State, n: nat,
                 steps: nat, steps': nat, limit: nat, k: nat, next: nat)
    requires s.links <= s'.links <= 40 && 0 < n < |s.todo| && s'.todo == s.todo[1..] && s'.sep == s.sep
    requires Enter(fs, All, PlaceOf(s), s.todo[0], 40 - s.links) == Arrived(PlaceOf(s'), 40 - s'.links)
    requires Walk(fs, follow, s, steps, limit) == Walk(fs, follow, s', steps', limit)
    requires Walked(fs, follow, s', n - 1, steps', limit, k, next)
    ensures Walked(fs, follow, s, n, steps, limit, k, next)
  {
    hide Enter, Visit, Walk, WellFormed, Unhindered;
    var comps := s.todo[..n];
    VisitStep(fs, All, PlaceOf(s), comps, 40 - s.links);
    assert s'.todo[..n - 1] == comps[1..] && s'.todo[n - 1..] == s.todo[n..];
  }

  /** A walk with components left ends where it stands outside a directory. */
  lemma StuckOutside(fs: Fs, follow: FollowSymlinks, s: State, steps: nat, limit: nat)
    requires s.links <= MAX_SYMLINKS && s.todo != [] && !Enterable(PlaceOf(s))
    requires Walk(fs, follow, s, steps, limit) != GuardTripped
    ensures Walk(fs, follow, s, steps, limit) == Failed(NotADirectory)
  {
  }

  lemma VisitNone(fs: Fs, follow: FollowSymlinks, p: Place, links: nat)
    ensures Visit(fs, follow, p, [], links) == Arrived(p, links)
  {
  }

  lemma {:induction false} InnerLink(fs: Fs, follow: FollowSymlinks, s: State, n: nat, steps: nat, limit: nat, k: nat)
    returns (next: nat)
    requires ValidFs(fs) && WellFormed(s) && s.links <= 40 && 0 < n < |s.todo| && AtLink(fs, follow, s)
    requires Unhindered(fs, follow, s, steps, limit, k)
    ensures Walked(fs, follow, s, n, steps, limit, k, next)
    decreases 40 - s.links, n, 0
  {
    hide *;
    next := steps;
    VisitFirst(fs, follow, s, n, steps, limit, k, next);
    LinkStep(fs, follow, s, steps, limit, k);
    if Step(fs, follow, s).Continue? {
      var r, afterTarget := TargetWalked(fs, follow, s, steps, limit, k);
      if r.Arrived? {
        var t := Onward(r, s.todo[1..], s.sep);
        OnwardPlace(r, s.todo[1..], s.sep);
        next := Inner(fs, follow, t, n - 1, afterTarget, limit, k);
        WalkedOn(fs, follow, s, t, n, steps, afterTarget, limit, k, next);
      }
    }
  }

  /** A symlink with components after it: its target is walked, and then the walk goes on with them. */
  lemma {:induction false} TargetWalked(fs: Fs, follow: FollowSymlinks, s: State, steps: nat, limit: nat, k: nat)
    returns (r: Arrival, next: nat)
    requires ValidFs(fs) && WellFormed(s) && s.links <= 40 && |s.todo| > 1 && AtLink(fs, follow, s)
    requires Unhindered(fs, follow, s, steps, limit, k) && Step(fs, follow, s).Continue?
    ensures r == Enter(fs, All, PlaceOf(s), s.todo[0], 40 - s.links)
    ensures r.Refused? ==> Walk(fs, follow, s, steps, limit) == Failed(r.error)
    ensures r.Arrived? ==>
              var t := Onward(r, s.todo[1..], s.sep);
              && t.links > s.links && WellFormed(t)
              && Walk(fs, follow, s, steps, limit) == Walk(fs, follow, t, next, limit)
              && Unhindered(fs, follow, t, next, limit, k)
    decreases 40 - s.links, 0, 0
  {
    hide Step, Enter, Visit, Comps, Walk, WellFormed, Unhindered, Roomy;
    LinkStep(fs, follow, s, steps, limit, k);
    r := Enter(fs, All, PlaceOf(s), s.todo[0], 40 - s.links);
    var target, s' := fs.target(fs.lookup(s.inode, s.todo[0]).value).value, Step(fs, follow, s).state;
    var n := |Comps(target)|;
    next := Inner(fs, follow, s', n, steps + 1, limit, k);
    assert s'.todo[..n] == Comps(target) && s'.todo[n..] == s.todo[1..];
    var inner := Visit(fs, All, PlaceOf(s'), Comps(target), 39 - s.links);
    if inner.Arrived? && EndsWithSep(target) && !Enterable(inner.place) {
      StuckOutside(fs, follow, Onward(inner, s.todo[1..], s.sep), next, limit);
    }
  }

  /** Walking to the end of the path gives the meaning of what is left of it. */
  lemma {:induction false} Outer(fs: Fs, follow: FollowSymlinks, s: State, steps: nat, limit: nat, k: nat)
    requires ValidFs(fs) && WellFormed(s) && s.links <= 40 && Unhindered(fs, follow, s, steps, limit, k)
    ensures Walk(fs, follow, s, steps, limit)
         == Answer(Checked(Visit(fs, follow, PlaceOf(s), s.todo, 40 - s.links), s.sep))
    decreases 40 - s.links, |s.todo|, 1
  {
    hide Step, Enter, Visit, Comps, Walk, WellFormed, Unhindered, AtLink, Roomy, Joined;
    if s.todo == [] {
      WalkEnd(fs, follow, s, steps, limit);
      VisitNone(fs, follow, PlaceOf(s), 40 - s.links);
    } else {
      VisitStep(fs, follow, PlaceOf(s), s.todo, 40 - s.links);
      if AtLink(fs, follow, s) {
        OuterLink(fs, follow, s, steps, limit, k);
      } else {
        OuterPlain(fs, follow, s, steps, limit, k);
      }
    }
  }

  lemma {:induction false} OuterPlain(fs: Fs, follow: FollowSymlinks, s: State, steps: nat, limit: nat, k: nat)
    requires ValidFs(fs) && WellFormed(s) && s.links <= 40 && Unhindered(fs, follow, s, steps, limit, k)
    requires s.todo != [] && !AtLink(fs, follow, s)
    ensures Walk(fs, follow, s, steps, limit)
         == Answer(Checked(Visit(fs, follow, PlaceOf(s), s.todo, 40 - s.links), s.sep))
    decreases 40 - s.links, |s.todo|, 0
  {
    hide Step, Enter, Visit, Comps, Walk, WellFormed, Unhindered, AtLink, Roomy, Joined;
    VisitStep(fs, follow, PlaceOf(s), s.todo, 40 - s.links);
    OtherStep(fs, follow, s, steps, limit, k);
    PlainStep(fs, follow, s);
    if Step(fs, follow, s).Continue? {
      var s' := Step(fs, follow, s).state;
      if Enter(fs, if |s.todo| > 1 then All else follow, PlaceOf(s), s.todo[0], 40 - s.links).Arrived? {
        Outer(fs, follow, s', steps + 1, limit, k);
        VisitNone(fs, follow, PlaceOf(s'), 40 - s.links);
      } else if |s.todo| > 1 {
        StuckOutside(fs, follow, s', steps + 1, limit);
      } else {
        WalkEnd(fs, follow, s', steps + 1, limit);
      }
    }
  }

  lemma {:induction false} OuterLink(fs: Fs, follow: FollowSymlinks, s: State, steps: nat, limit: nat, k: nat)
    requires ValidFs(fs) && WellFormed(s) && s.links <= 40 && Unhindered(fs, follow, s, steps, limit, k)
    requires AtLink(fs, follow, s)
    ensures s.todo != []
    ensures Walk(fs, follow, s, steps, limit)
         == Answer(Checked(Visit(fs, follow, PlaceOf(s), s.todo, 40 - s.links), s.sep))
    decreases 40 - s.links, |s.todo|, 0
  {
    hide Step, Enter, Visit, Comps, Walk, WellFormed, Unhindered, Roomy, Joined;
    VisitStep(fs, follow, PlaceOf(s), s.todo, 40 - s.links);
    LinkStep(fs, follow, s, steps, limit, k);
    if Step(fs, follow, s).Continue? {
      if |s.todo| > 1 {
        var r, next := TargetWalked(fs, follow, s, steps, limit, k);
        if r.Arrived? {
          Outer(fs, follow, Onward(r, s.todo[1..], s.sep), next, limit, k);
        }
      } else {
        var target, s' := fs.target(fs.lookup(s.inode, s.todo[0]).value).value, Step(fs, follow, s).state;
        assert follow.All? && s.todo[1..] == [] && s'.todo == Comps(target);
        Outer(fs, follow, s', steps + 1, limit, k);
        var r := Enter(fs, follow, PlaceOf(s), s.todo[0], 40 - s.links);
        if r.Arrived? {
          VisitNone(fs, follow, r.place, r.links);
        }
      }
    }
  }

  // ---------------------------------------------------------------------
  // Whole paths

  /**
   Theorem: on every filesystem, whatever resolve_path answers, unless the guard
   trips or the path grows too long, is the meaning of the path.
   */
  lemma ResolveMeans(fs: Fs, path: seq<byte>, follow: FollowSymlinks)
    requires ValidFs(fs) && IsPath(path)
    ensures var r := Resolve(fs, path, follow, 1000);
            r != GuardTripped && r != Failed(PathTooLong) ==> r == Meaning(fs, path, follow)
  {
    hide Comps, Walk, Visit, Joined, PathOf;
    var r := Resolve(fs, path, follow, 1000);
    if r != GuardTripped && r != Failed(PathTooLong) && IsAbsolute(path) && fs.root.Ok? {
      StartRepresents(fs.root.value, path);
      Outer(fs, follow, Start(fs.root.value, path), 0, 1000, 0);
    }
  }

  /**
   Theorem: with symlink targets of at most `k` bytes and `c` components, a path
   that leaves room for 40 of them within 4096 bytes and 1000 components is
   always answered with its meaning.
   */
  lemma ResolveIsMeaning(fs: Fs, path: seq<byte>, follow: FollowSymlinks, k: nat, c: nat)
    requires ValidFs(fs) && IsPath(path) && TargetsBelow(fs, k) && TargetsWithin(fs, c)
    requires |path| + 40 * k <= 4096 && |Comps(path)| + 40 * c <= 1000
    ensures Resolve(fs, path, follow, 1000) == Meaning(fs, path, follow)
  {
    hide Comps, Walk, Visit, Joined, PathOf, TargetsWithin, Dedup;
    if IsAbsolute(path) && fs.root.Ok? {
      GuardUnreached(fs, path, follow, c);
      var s := Start(fs.root.value, path);
      StartRepresents(fs.root.value, path);
      DedupEnds(path);
      Outer(fs, follow, s, 0, 1000, k);
    }
  }

  /** A path of more than 4096 bytes is refused outright, and no other is before the root is read. */
  lemma LengthLimit(fs: Fs, path: seq<byte>, follow: FollowSymlinks, limit: nat)
    requires IsAbsolute(path)
    ensures |path| > 4096 ==> Resolve(fs, path, follow, limit) == Failed(PathTooLong)
    ensures |path| <= 4096 && fs.root.Err? ==> Resolve(fs, path, follow, limit) == Failed(fs.root.error)
    ensures |path| <= 4096 && fs.root.Ok? && Comps(path) == [] ==>
              Resolve(fs, path, follow, limit) == Resolved(fs.root.value, [SEP])
  {
    hide Comps;
  }

  // ---------------------------------------------------------------------
  // Chains of symlinks

  /** Names in the root, each a symlink to the next one, the last a directory. */
  ghost predicate IsChain(fs: Fs, root: Inode, names: seq<seq<byte>>) {
    && names != [] && fs.root == Ok(root) && root.kind.Directory?
    && AllPlain(names)
    && (forall i :: 0 <= i < |names| ==> fs.lookup(root, names[i]).Ok?)
    && (forall i :: 0 <= i < |names| - 1 ==> LeadsTo(fs, fs.lookup(root, names[i]).value, names[i + 1]))
    && fs.lookup(root, names[|names| - 1]).value.kind.Directory?
  }

  predicate LeadsTo(fs: Fs, link: Inode, name: seq<byte>) {
    link.kind.Symlink? && fs.target(link) == Ok(name)
  }

  lemma ChainStep(fs: Fs, root: Inode, names: seq<seq<byte>>, i: nat)
    requires IsChain(fs, root, names) && i < |names|
    ensures var step := Step(fs, All, State([], root, [names[i]], false, i));
            if i + 1 == |names| then
              step == Continue(State([names[i]], fs.lookup(root, names[i]).value, [], false, i))
            else if i < 40 then step == Continue(State([], root, [names[i + 1]], false, i + 1))
            else step == Stop(Failed(TooManySymlinks))
  {
    hide Comps;
    var s := State([], root, [names[i]], false, i);
    assert s.todo[1..] == [] && IsPlain(names[i]);
    if i + 1 == |names| {
      assert [] + [names[i]] == [names[i]];
    } else {
      var link, target := fs.lookup(root, names[i]).value, names[i + 1];
      assert LeadsTo(fs, link, target) && IsPlain(target);
      assert target[|target| - 1] in target;
      CompsWithoutSep(target);
      assert [target] + [] == [target];
      assert Spliced(s, target) == [SEP] + target;
    }
  }

  lemma {:induction false} ChainWalk(fs: Fs, root: Inode, names: seq<seq<byte>>, i: nat)
    requires IsChain(fs, root, names) && i < |names| && i <= 40
    ensures Walk(fs, All, State([], root, [names[i]], false, i), i, 1000)
         == ChainAnswer(fs, root, names)
    decreases |names| - i
  {
    hide IsChain, Step;
    ChainStep(fs, root, names, i);
    ChainEnds(fs, root, names);
    if i + 1 < |names| && i < 40 {
      ChainWalk(fs, root, names, i + 1);
    }
  }

  /** The directory at the end, when no more than 40 symlinks lead there. */
  ghost function ChainAnswer(fs: Fs, root: Inode, names: seq<seq<byte>>): (o: Outcome)
    requires IsChain(fs, root, names)
  {
    var last := names[|names| - 1];
    if |names| <= 41 then Resolved(fs.lookup(root, last).value, [SEP] + last) else Failed(TooManySymlinks)
  }

  lemma ChainEnds(fs: Fs, root: Inode, names: seq<seq<byte>>)
    requires IsChain(fs, root, names)
    ensures names != [] && Joined([names[|names| - 1]], false) == names[|names| - 1]
  {
  }

  /** Theorem: a chain of symlinks to a directory resolves to it if and only if it has at most 40 links. */
  lemma ChainResolves(fs: Fs, root: Inode, names: seq<seq<byte>>)
    requires IsChain(fs, root, names)
    ensures var r, last := Resolve(fs, [SEP] + names[0], All, 1000), names[|names| - 1];
            if |names| - 1 <= 40 then r == Resolved(fs.lookup(root, last).value, [SEP] + last)
            else r == Failed(TooManySymlinks)
  {
    hide Walk;
    ChainWalk(fs, root, names, 0);
    assert IsPlain(names[0]) && names[0][|names[0]| - 1] in names[0];
    hide Comps;
    CompsLeadingSep(names[0]);
    CompsWithoutSep(names[0]);
  }

  /** The letter "a", repeated. */
  function Letters(n: nat): (name: seq<byte>) {
    seq(n, i => 97)
  }

  lemma LettersPlain(n: nat)
    requires 0 < n <= 255
    ensures |Letters(n)| == n && IsPlain(Letters(n))
  {
    assert Letters(n)[0] == 97;
  }

  /** A root with `n` symlinks "a", "aa" and so on, each to the next, and a directory after them. */
  function LinkChain(n: nat): (fs: Fs) {
    Fs(Ok(Inode(0, Directory)),
       (d: Inode, name: seq<byte>) => Ok(Inode(|name|, if |name| <= n then Symlink else Directory)),
       (i: Inode) => Ok(Letters(i.index + 1)))
  }

  /** There are such chains: 40 links resolve, 41 do not. */
  lemma FortyLinks(n: nat)
    requires n <= 41
    ensures Resolve(LinkChain(n), [SEP, 97], All, 1000)
         == if n <= 40 then Resolved(Inode(n + 1, Directory), [SEP] + Letters(n + 1)) else Failed(TooManySymlinks)
  {
    hide Resolve;
    var names := seq(n + 1, (i: nat) => Letters(i + 1));
    var fs, root := LinkChain(n), Inode(0, Directory);
    forall i | 0 <= i < |names|
      ensures IsPlain(names[i]) && |names[i]| == i + 1
    {
      LettersPlain(i + 1);
    }
    forall i | 0 <= i < |names| - 1
      ensures LeadsTo(fs, fs.lookup(root, names[i]).value, names[i + 1])
    {
      assert fs.lookup(root, names[i]).value == Inode(i + 1, Symlink);
    }
    assert IsChain(fs, root, names);
    assert names[0] == Letters(1) == [97];
    assert [SEP] + names[0] == [SEP, 97];
    ChainResolves(fs, root, names);
  }
}
